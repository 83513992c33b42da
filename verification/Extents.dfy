/** The file table and block accounting of src/impl/kernel/ramdisk.c, and what its
    operations do to them, as functions. */
module Extents {
  import opened Memory

  const BLOCK: nat := 512
  const TOTAL: nat := 2048
  const MAX_FILES: nat := 64
  const NAME_LEN: nat := 32

  /** struct RamDiskFile; its time stamps are always zero. */
  datatype File = File(name: string, flags: nat, size: nat, start: nat, count: nat, inUse: bool)

  /** What memset leaves of an entry. */
  const CLEARED: File := File("", 0, 0, 0, 0, false)

  datatype Meta = Meta(files: seq<File>, freeStart: nat, freeBlocks: nat)

  predicate Holds(f: File, name: string) { f.inUse && f.name == name }

  function Find(files: seq<File>, name: string): (i: nat)
    ensures i <= |files| && (i < |files| ==> Holds(files[i], name))
    ensures forall j :: 0 <= j < i ==> !Holds(files[j], name)
  {
    if files == [] || Holds(files[0], name) then 0 else 1 + Find(files[1..], name)
  }

  function FreeSlot(files: seq<File>): (i: nat)
    ensures i <= |files| && (i < |files| ==> !files[i].inUse)
    ensures forall j :: 0 <= j < i ==> files[j].inUse
  {
    if files == [] || !files[0].inUse then 0 else 1 + FreeSlot(files[1..])
  }

  predicate Exists(m: Meta, name: string) { Find(m.files, name) < |m.files| }

  // ----- create and delete -----

  predicate CanCreate(m: Meta, name: string) {
    |name| < NAME_LEN && !Exists(m, name) && FreeSlot(m.files) < |m.files|
  }

  function Create(m: Meta, name: string, flags: nat): Meta {
    if CanCreate(m, name) then m.(files := m.files[FreeSlot(m.files) := File(name, flags, 0, 0, 0, true)]) else m
  }

  function Delete(m: Meta, name: string): Meta {
    if Exists(m, name) then
      var i := Find(m.files, name);
      m.(files := m.files[i := CLEARED], freeBlocks := m.freeBlocks + m.files[i].count)
    else m
  }

  /** Creating, in full: a name of less than 32 characters that no file in use has gets an empty
      entry with the flags given, in the first slot not in use; anything else changes nothing. */
  lemma CreateExactly(m: Meta, name: string, flags: nat, i: nat)
    requires i <= |m.files| && (i < |m.files| ==> !m.files[i].inUse) && forall j :: 0 <= j < i ==> m.files[j].inUse
    ensures Create(m, name, flags) ==
            if |name| < 32 && i < |m.files| && (forall j :: 0 <= j < |m.files| && m.files[j].inUse ==> m.files[j].name != name)
            then m.(files := m.files[i := File(name, flags, 0, 0, 0, true)]) else m
  {
    FreeSlotUnique(m.files, i);
  }

  lemma {:induction false} FreeSlotUnique(files: seq<File>, i: nat)
    requires i <= |files| && (i < |files| ==> !files[i].inUse) && forall j :: 0 <= j < i ==> files[j].inUse
    ensures FreeSlot(files) == i
  {
    if i > 0 {
      assert files[0].inUse;
      FreeSlotUnique(files[1..], i - 1);
    }
  }

  // ----- the block part of write -----

  /** `(end + RAMDISK_BLOCK_SIZE - 1) / RAMDISK_BLOCK_SIZE`, computed on 64 bits and kept
      on 32. */
  function Required(end: nat): nat { (end + BLOCK - 1) % TWO_64 / BLOCK % TWO_32 }

  /** Ends whose block number fits 32 bits. */
  predicate Addressable(end: nat) { end + BLOCK <= TWO_32 * BLOCK }

  predicate NeedsBlocks(f: File, end: nat) { Required(end) > f.count }

  /** The write asks for blocks while the file already has some. */
  predicate Grows(f: File, end: nat) { NeedsBlocks(f, end) && f.count > 0 }

  /** The blocks it asks for are free. */
  predicate Fitting(f: File, end: nat, freeBlocks: nat) {
    NeedsBlocks(f, end) ==> Required(end) - f.count <= freeBlocks
  }

  predicate CanWrite(m: Meta, name: string, end: nat) {
    Exists(m, name) && Fitting(m.files[Find(m.files, name)], end, m.freeBlocks)
  }

  /** The entry once blocks are found for a write up to byte end. */
  function Reserved(f: File, freeStart: nat, end: nat): File {
    if NeedsBlocks(f, end) then f.(start := freeStart, count := Required(end)) else f
  }

  function Sized(f: File, end: nat): File {
    if end > f.size then f.(size := end % TWO_32) else f
  }

  /** The entry after a write that ends at byte end. */
  function Written(f: File, freeStart: nat, end: nat): File { Sized(Reserved(f, freeStart, end), end) }

  function TakenBlocks(f: File, end: nat): nat {
    if NeedsBlocks(f, end) then Required(end) - f.count else 0
  }

  function WriteAt(m: Meta, i: nat, end: nat): Meta
    requires i < |m.files| && Fitting(m.files[i], end, m.freeBlocks)
  {
    var f := m.files[i];
    Meta(m.files[i := Written(f, m.freeStart, end)],
         (m.freeStart + TakenBlocks(f, end)) % TWO_32, m.freeBlocks - TakenBlocks(f, end))
  }

  function Write(m: Meta, name: string, end: nat): Meta {
    if CanWrite(m, name, end) then WriteAt(m, Find(m.files, name), end) else m
  }

  /** Writing keeps the name and the flags of every file, and which are in use. */
  lemma WriteKeepsFlags(m: Meta, name: string, end: nat, j: nat)
    requires j < |m.files|
    ensures var r := Write(m, name, end).files;
            |r| == |m.files| && r[j].name == m.files[j].name && r[j].flags == m.files[j].flags && r[j].inUse == m.files[j].inUse
  {
  }

  // ----- conservation, on every run -----

  function Counts(files: seq<File>): nat {
    if files == [] then 0 else (if files[0].inUse then files[0].count else 0) + Counts(files[1..])
  }

  function CountOf(f: File): nat { if f.inUse then f.count else 0 }

  lemma {:induction false} CountsOfUpdate(files: seq<File>, i: nat, f: File)
    requires i < |files|
    ensures Counts(files[i := f]) + CountOf(files[i]) == Counts(files) + CountOf(f)
  {
    if i == 0 {
      assert files[0 := f][1..] == files[1..];
    } else {
      assert files[i := f][1..] == files[1..][i - 1 := f];
      CountsOfUpdate(files[1..], i - 1, f);
    }
  }

  ghost predicate DistinctNames(files: seq<File>) {
    forall i, j :: 0 <= i < j < |files| && files[i].inUse && files[j].inUse ==> files[i].name != files[j].name
  }

  ghost predicate Accounted(m: Meta) {
    Counts(m.files) + m.freeBlocks == TOTAL && DistinctNames(m.files)
  }

  datatype Op = CreateOp(name: string, flags: nat) | WriteOp(name: string, end: nat) | DeleteOp(name: string)

  function Exec(m: Meta, op: Op): Meta {
    match op
    case CreateOp(name, flags) => Create(m, name, flags)
    case WriteOp(name, end) => Write(m, name, end)
    case DeleteOp(name) => Delete(m, name)
  }

  function Run(m: Meta, ops: seq<Op>): Meta
    decreases |ops|
  {
    if ops == [] then m else Run(Exec(m, ops[0]), ops[1..])
  }

  lemma ExecConserves(m: Meta, op: Op)
    requires Accounted(m)
    ensures Accounted(Exec(m, op))
  {
    match op
    case CreateOp(name, flags) =>
      if CanCreate(m, name) {
        CountsOfUpdate(m.files, FreeSlot(m.files), File(name, flags, 0, 0, 0, true));
      }
    case WriteOp(name, end) =>
      if CanWrite(m, name, end) {
        var i := Find(m.files, name);
        CountsOfUpdate(m.files, i, Written(m.files[i], m.freeStart, end));
      }
    case DeleteOp(name) =>
      if Exists(m, name) {
        CountsOfUpdate(m.files, Find(m.files, name), CLEARED);
      }
  }

  /** Whatever is created, written or deleted, refused or not: the blocks of the files in
      use and the free blocks add up to the disk, and names stay distinct. */
  lemma {:induction false} RunConserves(m: Meta, ops: seq<Op>)
    requires Accounted(m)
    ensures Accounted(Run(m, ops))
    decreases |ops|
  {
    if ops != [] {
      ExecConserves(m, ops[0]);
      RunConserves(Exec(m, ops[0]), ops[1..]);
    }
  }

  // ----- layout -----

  predicate HasExtent(f: File) { f.inUse && f.count > 0 }

  predicate Apart(f: File, g: File) { f.start + f.count <= g.start || g.start + g.count <= f.start }

  predicate Placed(f: File, freeStart: nat) {
    f.size <= f.count * BLOCK && (if f.count > 0 then f.start + f.count <= freeStart else f.start == 0)
  }

  /** Extents are disjoint and below the start of the free area. */
  ghost predicate Spread(m: Meta) {
    && m.freeStart <= TOTAL
    && (forall i :: 0 <= i < |m.files| && m.files[i].inUse ==> Placed(m.files[i], m.freeStart))
    && (forall i, j :: 0 <= i < j < |m.files| && HasExtent(m.files[i]) && HasExtent(m.files[j])
          ==> Apart(m.files[i], m.files[j]))
  }

  /** ... and the free area is the rest of the disk. */
  ghost predicate Laid(m: Meta) { m.freeStart + m.freeBlocks == TOTAL && Spread(m) }

  lemma CreateSpread(m: Meta, name: string, flags: nat)
    requires Spread(m)
    ensures Spread(Create(m, name, flags)) && (Laid(m) ==> Laid(Create(m, name, flags)))
  {
  }

  lemma DeleteSpread(m: Meta, name: string)
    requires Spread(m)
    ensures Spread(Delete(m, name))
  {
  }

  lemma RequiredIsEnough(end: nat)
    requires Addressable(end)
    ensures Required(end) == (end + 511) / 512
    ensures end <= Required(end) * 512
    ensures end > 0 ==> (Required(end) - 1) * 512 < end
  {
  }

  /** The blocks asked for end on the disk. */
  predicate OnDisk(m: Meta, f: File, end: nat) { NeedsBlocks(f, end) ==> m.freeStart + Required(end) <= TOTAL }

  /** The extent of a write that takes blocks: as many as required, from the free area on. */
  lemma ExtentTaken(m: Meta, i: nat, end: nat)
    requires i < |m.files| && Fitting(m.files[i], end, m.freeBlocks) && NeedsBlocks(m.files[i], end)
    ensures var f, r := m.files[i], WriteAt(m, i, end);
            && r.files[i].start == m.freeStart && r.files[i].count == Required(end) > 0 && r.files[i].inUse == f.inUse
            && r.files[i].size == (if end > f.size then end % TWO_32 else f.size)
            && (m.freeStart + Required(end) - f.count < TWO_32 ==> r.freeStart == m.freeStart + Required(end) - f.count)
  {
  }

  lemma PlainWriteSpread(m: Meta, i: nat, end: nat)
    requires Spread(m) && i < |m.files| && m.files[i].inUse && Addressable(end)
    requires Fitting(m.files[i], end, m.freeBlocks) && !Grows(m.files[i], end) && OnDisk(m, m.files[i], end)
    ensures Spread(WriteAt(m, i, end))
  {
    RequiredIsEnough(end);
    var r := WriteAt(m, i, end);
    if NeedsBlocks(m.files[i], end) {
      ExtentTaken(m, i, end);
      FreshExtentSpread(m, i, r);
    } else {
      SameExtentSpread(m, i, r);
    }
  }

  lemma OtherWriteNotSpread(m: Meta, i: nat, end: nat)
    requires Spread(m) && i < |m.files| && m.files[i].inUse
    requires Fitting(m.files[i], end, m.freeBlocks) && (Grows(m.files[i], end) || !OnDisk(m, m.files[i], end))
    ensures !Spread(WriteAt(m, i, end))
  {
    var f, r := m.files[i], WriteAt(m, i, end);
    PastFreeStart(m, f, end);
    assert r.files[i] == Written(f, m.freeStart, end);
  }

  /** A write keeps the extents apart exactly when it does not make a file that has blocks ask
      for more, and takes no block past the end of the disk. */
  lemma WriteSpreadIff(m: Meta, name: string, end: nat)
    requires Spread(m) && CanWrite(m, name, end) && Addressable(end)
    ensures var f := m.files[Find(m.files, name)];
            Spread(Write(m, name, end)) <==> !Grows(f, end) && OnDisk(m, f, end)
  {
    var i := Find(m.files, name);
    if !Grows(m.files[i], end) && OnDisk(m, m.files[i], end) {
      PlainWriteSpread(m, i, end);
    } else {
      OtherWriteNotSpread(m, i, end);
    }
  }

  /** Otherwise the extent ends beyond the new start of the free area, or that is off the disk. */
  lemma PastFreeStart(m: Meta, f: File, end: nat)
    requires NeedsBlocks(f, end) && (Grows(f, end) || !OnDisk(m, f, end)) && m.freeStart <= TOTAL
    ensures var next := (m.freeStart + TakenBlocks(f, end)) % TWO_32;
            next > TOTAL || m.freeStart + Required(end) > next
  {
  }

  /** It keeps the layout exactly when it does not grow such a file: then only the difference is
      reserved, but the whole file is placed at the new start. */
  lemma WriteLaidIff(m: Meta, name: string, end: nat)
    requires Laid(m) && CanWrite(m, name, end) && Addressable(end)
    ensures Laid(Write(m, name, end)) <==> !Grows(m.files[Find(m.files, name)], end)
  {
    WriteSpreadIff(m, name, end);
    var f := m.files[Find(m.files, name)];
    if !Grows(f, end) {
      assert TakenBlocks(f, end) <= m.freeBlocks;
    }
  }

  lemma FreshExtentSpread(m: Meta, i: nat, r: Meta)
    requires Spread(m) && i < |m.files| && |r.files| == |m.files| && m.files[i].inUse
    requires forall j :: 0 <= j < |m.files| && j != i ==> r.files[j] == m.files[j]
    requires r.files[i].start == m.freeStart && r.files[i].start + r.files[i].count == r.freeStart <= TOTAL
    requires r.files[i].count > 0 && r.files[i].size <= r.files[i].count * BLOCK
    ensures Spread(r)
  {
  }

  lemma SameExtentSpread(m: Meta, i: nat, r: Meta)
    requires Spread(m) && i < |m.files| && |r.files| == |m.files| && m.files[i].inUse
    requires forall j :: 0 <= j < |m.files| && j != i ==> r.files[j] == m.files[j]
    requires r.files[i].start == m.files[i].start && r.files[i].count == m.files[i].count
    requires r.files[i].size <= r.files[i].count * BLOCK && r.freeStart == m.freeStart
    ensures Spread(r)
  {
  }

  /** A delete keeps the layout exactly when the file has no blocks: their number goes
      back, but the start of the free area does not. */
  lemma DeleteLaidIff(m: Meta, name: string)
    requires Laid(m) && Exists(m, name)
    ensures Laid(Delete(m, name)) <==> m.files[Find(m.files, name)].count == 0
  {
    DeleteSpread(m, name);
  }

  lemma WriteIsWriteAt(m: Meta, name: string, end: nat, i: nat)
    requires i < |m.files| && Find(m.files, name) == i && Fitting(m.files[i], end, m.freeBlocks)
    ensures CanWrite(m, name, end) && Write(m, name, end) == WriteAt(m, i, end)
  {
  }

  lemma OverlapsAt(m: Meta, i: nat, end: nat, j: nat, end': nat)
    requires Laid(m) && i < |m.files| && j < |m.files| && i != j && m.files[i].inUse && m.files[j].inUse
    requires Grows(m.files[i], end) && Fitting(m.files[i], end, m.freeBlocks)
    requires m.files[j].count == 0 && Required(end') > 0 && Fitting(m.files[j], end', WriteAt(m, i, end).freeBlocks)
    ensures var r := WriteAt(WriteAt(m, i, end), j, end');
            HasExtent(r.files[i]) && HasExtent(r.files[j]) && !Apart(r.files[i], r.files[j])
  {
    ExtentTaken(m, i, end);
    var g := WriteAt(m, i, end);
    ExtentTaken(g, j, end');
    var r := WriteAt(g, j, end');
    assert r.files[i] == g.files[i];
    assert g.freeStart == m.freeStart + Required(end) - m.files[i].count;
  }

  /** After a file that has blocks has grown, the next file to get blocks gets some of
      the same ones. */
  lemma GrowthOverlapsNext(m: Meta, name: string, end: nat, name': string, end': nat)
    requires Laid(m) && CanWrite(m, name, end) && Grows(m.files[Find(m.files, name)], end)
    requires var g := Write(m, name, end);
             && name' != name && CanWrite(g, name', end') && Required(end') > 0
             && g.files[Find(g.files, name')].count == 0
    ensures var g := Write(m, name, end);
            var r := Write(g, name', end');
            var i, j := Find(m.files, name), Find(g.files, name');
            i != j && HasExtent(r.files[i]) && HasExtent(r.files[j]) && !Apart(r.files[i], r.files[j])
  {
    var i := Find(m.files, name);
    var g := Write(m, name, end);
    var j := Find(g.files, name');
    assert g.files[i] == Written(m.files[i], m.freeStart, end);
    assert g.files[j].name == name' && g.files[i].name == name;
    OverlapsAt(m, i, end, j, end');
  }

  lemma OverrunAt(m: Meta, i: nat, end: nat)
    requires i < |m.files| && m.files[i].count == 0 && Required(end) == m.freeBlocks && m.freeStart + m.freeBlocks > TOTAL
    ensures Fitting(m.files[i], end, m.freeBlocks)
    ensures var f := WriteAt(m, i, end).files[i]; m.freeBlocks > 0 ==> f.start + f.count > TOTAL
  {
  }

  /** After a file with blocks is deleted, a file that takes all the free blocks runs
      past the end of the disk. */
  lemma DeleteThenOverrun(m: Meta, name: string, name': string, end: nat)
    requires Laid(m) && Exists(m, name) && m.files[Find(m.files, name)].count > 0
    requires var g := Delete(m, name);
             Exists(g, name') && g.files[Find(g.files, name')].count == 0 && Required(end) == g.freeBlocks
    ensures var g := Delete(m, name);
            var f := Write(g, name', end).files[Find(g.files, name')];
            CanWrite(g, name', end) && f.start + f.count > TOTAL
  {
    var g := Delete(m, name);
    OverrunAt(g, Find(g.files, name'), end);
  }

  // ----- both failures happen to a new disk -----

  /** What ramdisk_create makes of the table. */
  function Fresh(): Meta { Meta(seq(MAX_FILES, _ => CLEARED), 0, TOTAL) }

  function Empty(name: string): File { File(name, 0, 0, 0, 0, true) }

  /** The table with two files, and the rest of it unused. */
  ghost predicate TwoFiles(m: Meta, f: File, g: File) {
    && |m.files| == MAX_FILES && m.files[0] == f && m.files[1] == g
    && f.inUse && g.inUse && f.name == "a" && g.name == "b"
    && forall i :: 2 <= i < MAX_FILES ==> !m.files[i].inUse
  }

  lemma FindBoth(m: Meta, f: File, g: File)
    requires TwoFiles(m, f, g)
    ensures Find(m.files, "a") == 0 && Find(m.files, "b") == 1
  {
    assert m.files[1..][0] == g;
    assert "a" != "b";
  }

  /** The table of a disk with two empty files, and all blocks free. */
  ghost predicate TwoEmpty(m: Meta) {
    TwoFiles(m, Empty("a"), Empty("b")) && m.freeStart == 0 && m.freeBlocks == TOTAL && Laid(m)
  }

  lemma CreateBoth(m: Meta)
    requires |m.files| == MAX_FILES && m.freeStart == 0 && m.freeBlocks == TOTAL
    requires forall i :: 0 <= i < MAX_FILES ==> m.files[i] == CLEARED
    ensures TwoEmpty(Create(Create(m, "a", 0), "b", 0))
  {
    assert !Exists(m, "a");
    assert FreeSlot(m.files) == 0;
    var m1 := Create(m, "a", 0);
    assert m1.files[0] == Empty("a");
    assert "a" != "b";
    assert !Exists(m1, "b");
    assert m1.files[1..][0] == CLEARED;
    assert FreeSlot(m1.files) == 1;
  }

  lemma WriteFirst(m: Meta, f: File, g: File, end: nat)
    requires TwoFiles(m, f, g) && Fitting(f, end, m.freeBlocks)
    ensures CanWrite(m, "a", end)
    ensures var f' := Written(f, m.freeStart, end);
            && TwoFiles(Write(m, "a", end), f', g)
            && Write(m, "a", end).freeStart == (m.freeStart + TakenBlocks(f, end)) % TWO_32
            && Write(m, "a", end).freeBlocks == m.freeBlocks - TakenBlocks(f, end)
  {
    FindBoth(m, f, g);
  }

  lemma RequiredOf()
    ensures Required(512) == 1 && Required(1024) == 2 && Required(TOTAL * BLOCK) == TOTAL
  {
    RequiredIsEnough(512);
    RequiredIsEnough(1024);
    RequiredIsEnough(TOTAL * BLOCK);
  }

  /** File a with one block. */
  function OneBlock(): File { File("a", 0, 512, 0, 1, true) }

  lemma WriteOneBlock(m: Meta)
    requires TwoEmpty(m)
    ensures var r := Write(m, "a", 512);
            OneTaken(r)
  {
    RequiredOf();
    WriteFirst(m, Empty("a"), Empty("b"), 512);
    FindBoth(m, Empty("a"), Empty("b"));
    WriteLaidIff(m, "a", 512);
  }

  /** The disk with that block taken. */
  ghost predicate OneTaken(m: Meta) {
    TwoFiles(m, OneBlock(), Empty("b")) && m.freeStart == 1 && m.freeBlocks == TOTAL - 1 && Laid(m)
  }

  lemma Grown(m: Meta)
    requires OneTaken(m)
    ensures CanWrite(m, "a", 1024) && Find(m.files, "a") == 0 && Grows(m.files[0], 1024)
    ensures var g := Write(m, "a", 1024); CanWrite(g, "b", 512) && Find(g.files, "b") == 1 && g.files[1] == Empty("b")
  {
    RequiredOf();
    FindBoth(m, OneBlock(), Empty("b"));
    WriteFirst(m, OneBlock(), Empty("b"), 1024);
    FindBoth(Write(m, "a", 1024), Written(OneBlock(), 1, 1024), Empty("b"));
  }

  lemma GrowThenNext(m: Meta)
    requires OneTaken(m)
    ensures var r := Write(Write(m, "a", 1024), "b", 512);
            |r.files| == MAX_FILES && HasExtent(r.files[0]) && HasExtent(r.files[1]) && !Apart(r.files[0], r.files[1])
  {
    Grown(m);
    RequiredOf();
    WriteIsWriteAt(m, "a", 1024, 0);
    WriteIsWriteAt(Write(m, "a", 1024), "b", 512, 1);
    OverlapsAt(m, 0, 1024, 1, 512);
  }

  lemma Deleted(m: Meta)
    requires OneTaken(m)
    ensures Exists(m, "a") && m.files[Find(m.files, "a")] == OneBlock()
    ensures var g := Delete(m, "a");
            |g.files| == MAX_FILES && Find(g.files, "b") == 1 && g.files[1] == Empty("b") && g.freeBlocks == TOTAL && g.freeStart == 1
  {
    FindBoth(m, OneBlock(), Empty("b"));
    var g := Delete(m, "a");
    assert g.files[0] == CLEARED && g.files[1..][0] == Empty("b");
  }

  lemma DeleteThenAll(m: Meta)
    requires OneTaken(m)
    ensures var r := Write(Delete(m, "a"), "b", TOTAL * BLOCK);
            |r.files| == MAX_FILES && r.files[1].start + r.files[1].count > TOTAL
  {
    Deleted(m);
    RequiredOf();
    OverrunAt(Delete(m, "a"), 1, TOTAL * BLOCK);
    WriteIsWriteAt(Delete(m, "a"), "b", TOTAL * BLOCK, 1);
  }

  /** One block for a, a second one for a, and one for b: two extents share a block. */
  lemma GrowthOverlapsOnNewDisk()
    ensures var r := Run(Fresh(), [CreateOp("a", 0), CreateOp("b", 0), WriteOp("a", 512), WriteOp("a", 1024), WriteOp("b", 512)]);
            |r.files| == MAX_FILES && HasExtent(r.files[0]) && HasExtent(r.files[1]) && !Apart(r.files[0], r.files[1])
  {
    CreateBoth(Fresh());
    WriteOneBlock(Create(Create(Fresh(), "a", 0), "b", 0));
    GrowThenNext(Write(Create(Create(Fresh(), "a", 0), "b", 0), "a", 512));
    RunOfFive(Fresh(), CreateOp("a", 0), CreateOp("b", 0), WriteOp("a", 512), WriteOp("a", 1024), WriteOp("b", 512));
  }

  /** One block for a, a deleted, and all free blocks for b: the last is past the disk. */
  lemma DeleteOverrunsNewDisk()
    ensures var r := Run(Fresh(), [CreateOp("a", 0), CreateOp("b", 0), WriteOp("a", 512), DeleteOp("a"), WriteOp("b", TOTAL * BLOCK)]);
            |r.files| == MAX_FILES && r.files[1].start + r.files[1].count > TOTAL
  {
    CreateBoth(Fresh());
    WriteOneBlock(Create(Create(Fresh(), "a", 0), "b", 0));
    DeleteThenAll(Write(Create(Create(Fresh(), "a", 0), "b", 0), "a", 512));
    RunOfFive(Fresh(), CreateOp("a", 0), CreateOp("b", 0), WriteOp("a", 512), DeleteOp("a"), WriteOp("b", TOTAL * BLOCK));
  }

  lemma RunCons(m: Meta, op: Op, ops: seq<Op>)
    ensures Run(m, [op] + ops) == Run(Exec(m, op), ops)
  {
    assert ([op] + ops)[1..] == ops;
  }

  lemma RunOfFive(m: Meta, a: Op, b: Op, c: Op, d: Op, e: Op)
    ensures Run(m, [a, b, c, d, e]) == Exec(Exec(Exec(Exec(Exec(m, a), b), c), d), e)
  {
    assert [a, b, c, d, e] == [a] + ([b] + ([c] + ([d] + ([e] + []))));
    RunCons(m, a, [b] + ([c] + ([d] + ([e] + []))));
    RunCons(Exec(m, a), b, [c] + ([d] + ([e] + [])));
    RunCons(Exec(Exec(m, a), b), c, [d] + ([e] + []));
    RunCons(Exec(Exec(Exec(m, a), b), c), d, [e] + []);
    RunCons(Exec(Exec(Exec(Exec(m, a), b), c), d), e, []);
  }
}
