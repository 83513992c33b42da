/** The bytes of the RAM disk of src/impl/kernel/ramdisk.c, and the map from names to
    contents it stands for. */
module DiskImage {
  import opened Arithmetic
  import opened Memory
  import opened Extents
  import opened Wrappers

  const SIZE: nat := 0x10_0000

  datatype Disk = Disk(m: Meta, data: seq<byte>)

  /** Bytes stored where there is room for them. */
  function StoreAt(mem: seq<byte>, a: nat, bs: seq<byte>): (r: seq<byte>)
    ensures |r| == |mem|
    ensures a + |bs| <= |mem| ==>
              forall k :: 0 <= k < |mem| ==> r[k] == if a <= k < a + |bs| then bs[k - a] else mem[k]
  {
    if a + |bs| <= |mem| then Patch(mem, a, bs) else mem
  }

  function FirstByte(f: File): nat { f.start * BLOCK }

  function LastByte(f: File): nat { (f.start + f.count) * BLOCK }

  function Content(data: seq<byte>, f: File): seq<byte> {
    if FirstByte(f) + f.size <= |data| then data[FirstByte(f)..FirstByte(f) + f.size] else []
  }

  /** The abstract map. */
  function Lookup(d: Disk, name: string): Option<seq<byte>> {
    var i := Find(d.m.files, name);
    if i < |d.m.files| then Some(Content(d.data, d.m.files[i])) else None
  }

  // ----- operations -----

  /** The data once blocks are found: the old content moved, byte by byte, if the file had any. */
  function Moved(data: seq<byte>, f: File, start: nat, end: nat): (r: seq<byte>)
    ensures |r| == |data|
  {
    if Grows(f, end) && FirstByte(f) + f.size <= |data| && start * BLOCK + f.size <= |data|
    then CopyUp(data, start * BLOCK, FirstByte(f), f.size) else data
  }

  /** ... and after the bytes are laid over it. */
  function DataWritten(data: seq<byte>, f: File, g: File, offset: nat, bytes: seq<byte>, end: nat): seq<byte> {
    StoreAt(Moved(data, f, g.start, end), FirstByte(g) + offset, bytes)
  }

  function WriteSlot(d: Disk, i: nat, offset: nat, bytes: seq<byte>): Disk
    requires i < |d.m.files| && Fitting(d.m.files[i], offset + |bytes|, d.m.freeBlocks)
  {
    var f, end := d.m.files[i], offset + |bytes|;
    Disk(WriteAt(d.m, i, end), DataWritten(d.data, f, Written(f, d.m.freeStart, end), offset, bytes, end))
  }

  /** ramdisk_write finds blocks first, moving what the file held, ... */
  function ReserveSlot(d: Disk, i: nat, end: nat): Disk
    requires i < |d.m.files| && Fitting(d.m.files[i], end, d.m.freeBlocks)
  {
    var f := d.m.files[i];
    Disk(Meta(d.m.files[i := Reserved(f, d.m.freeStart, end)],
              (d.m.freeStart + TakenBlocks(f, end)) % TWO_32, d.m.freeBlocks - TakenBlocks(f, end)),
         Moved(d.data, f, d.m.freeStart, end))
  }

  /** ... and stores the bytes then. */
  function FillSlot(d: Disk, i: nat, offset: nat, bytes: seq<byte>): Disk
    requires i < |d.m.files|
  {
    var f := d.m.files[i];
    Disk(d.m.(files := d.m.files[i := Sized(f, offset + |bytes|)]), StoreAt(d.data, FirstByte(f) + offset, bytes))
  }

  lemma WriteIsReserveAndFill(d: Disk, i: nat, offset: nat, bytes: seq<byte>)
    requires i < |d.m.files| && Fitting(d.m.files[i], offset + |bytes|, d.m.freeBlocks)
    ensures WriteSlot(d, i, offset, bytes) == FillSlot(ReserveSlot(d, i, offset + |bytes|), i, offset, bytes)
  {
  }

  function WriteFile(d: Disk, name: string, offset: nat, bytes: seq<byte>): Disk {
    if CanWrite(d.m, name, offset + |bytes|) then WriteSlot(d, Find(d.m.files, name), offset, bytes) else d
  }

  /** The bytes ramdisk_read delivers. */
  function ReadSlice(content: seq<byte>, offset: nat, size: nat): (r: seq<byte>) {
    if offset >= |content| then []
    else if offset + size > |content| then content[offset..]
    else content[offset..offset + size]
  }

  /** They are the bytes of the content from the offset on, as many as asked for or as there are. */
  lemma ReadSliceBytes(content: seq<byte>, offset: nat, size: nat)
    ensures var r := ReadSlice(content, offset, size);
            && |r| == (if offset >= |content| then 0 else if size <= |content| - offset then size else |content| - offset)
            && forall k :: 0 <= k < |r| ==> r[k] == content[offset + k]
  {
  }

  /** Writing in the abstract: bytes laid over a content, a gap filled with zeros. */
  function Overlay(content: seq<byte>, offset: nat, bytes: seq<byte>): (r: seq<byte>)
    ensures |r| == if offset + |bytes| > |content| then offset + |bytes| else |content|
  {
    var n := if offset + |bytes| > |content| then offset + |bytes| else |content|;
    seq(n, k requires 0 <= k < n =>
      if offset <= k < offset + |bytes| then bytes[k - offset] else if k < |content| then content[k] else 0)
  }

  // ----- disks in good order -----

  /** Free space is zero, and so is what lies behind a file's last byte in its blocks. */
  ghost predicate Zeroed(d: Disk) {
    && (forall k :: d.m.freeStart * BLOCK <= k < |d.data| ==> d.data[k] == 0)
    && (forall i, k {:trigger d.m.files[i], d.data[k]} :: 0 <= i < |d.m.files| && HasExtent(d.m.files[i])
          && FirstByte(d.m.files[i]) + d.m.files[i].size <= k < LastByte(d.m.files[i]) && k < |d.data|
          ==> d.data[k] == 0)
  }

  ghost predicate Good(d: Disk) {
    |d.m.files| == MAX_FILES && |d.data| == SIZE && Spread(d.m) && DistinctNames(d.m.files) && Zeroed(d)
  }

  lemma ExtentInDisk(d: Disk, i: nat)
    requires Good(d) && i < MAX_FILES && HasExtent(d.m.files[i])
    ensures LastByte(d.m.files[i]) <= d.m.freeStart * BLOCK <= SIZE
    ensures FirstByte(d.m.files[i]) + d.m.files[i].size <= LastByte(d.m.files[i])
  {
  }

  lemma FindSame(files: seq<File>, i: nat, f: File, w: string)
    requires i < |files| && (Holds(f, w) <==> Holds(files[i], w))
    ensures Find(files[i := f], w) == Find(files, w)
  {
    FindUnique(files[i := f], w, Find(files, w));
  }

  lemma {:induction false} FindUnique(files: seq<File>, w: string, i: nat)
    requires i <= |files| && (i < |files| ==> Holds(files[i], w))
    requires forall j :: 0 <= j < i ==> !Holds(files[j], w)
    ensures Find(files, w) == i
  {
    if i > 0 {
      assert !Holds(files[0], w);
      FindUnique(files[1..], w, i - 1);
    }
  }

  // ----- create -----

  lemma CreateGood(d: Disk, name: string, flags: nat)
    requires Good(d)
    ensures Good(d.(m := Create(d.m, name, flags)))
  {
    CreateSpread(d.m, name, flags);
  }

  /** Creating adds an empty file, or is refused and changes nothing. */
  lemma CreateRefines(d: Disk, name: string, flags: nat, w: string)
    requires Good(d)
    ensures var r := d.(m := Create(d.m, name, flags));
            && Good(r)
            && Lookup(r, w) == if CanCreate(d.m, name) && w == name then Some([]) else Lookup(d, w)
  {
    CreateGood(d, name, flags);
    if CanCreate(d.m, name) {
      var i := FreeSlot(d.m.files);
      var f := File(name, flags, 0, 0, 0, true);
      if w == name {
        FindUnique(d.m.files[i := f], w, i);
      } else {
        FindSame(d.m.files, i, f, w);
      }
    }
  }

  /** Deleting removes the name, and nothing else. */
  lemma DeleteRefines(d: Disk, name: string, w: string)
    requires Good(d)
    ensures var r := d.(m := Delete(d.m, name));
            Good(r) && Lookup(r, w) == if w == name then None else Lookup(d, w)
  {
    if Exists(d.m, name) {
      var i := Find(d.m.files, name);
      DeleteSpread(d.m, name);
      var files := d.m.files[i := CLEARED];
      if w == name {
        forall j | 0 <= j < MAX_FILES
          ensures !Holds(files[j], w)
        {
          if i < j {
            assert !(d.m.files[i].inUse && d.m.files[j].inUse) || d.m.files[i].name != d.m.files[j].name;
          }
        }
        FindUnique(files, w, MAX_FILES);
      } else {
        FindSame(d.m.files, i, CLEARED, w);
      }
    }
  }

  // ----- write -----

  /** A write that can be done, does not grow a file that has blocks, and takes blocks on the disk. */
  ghost predicate PlainWrite(d: Disk, name: string, end: nat) {
    && Good(d) && CanWrite(d.m, name, end) && Addressable(end)
    && !Grows(d.m.files[Find(d.m.files, name)], end) && OnDisk(d.m, d.m.files[Find(d.m.files, name)], end)
  }

  /** Where its bytes go: inside the file's extent, on the disk, away from the others. */
  lemma WrittenExtent(d: Disk, name: string, offset: nat, n: nat)
    requires PlainWrite(d, name, offset + n)
    ensures var f := d.m.files[Find(d.m.files, name)];
            var g := Written(f, d.m.freeStart, offset + n);
            var r := Write(d.m, name, offset + n);
            && FirstByte(g) + offset + n <= LastByte(g) <= r.freeStart * BLOCK <= SIZE
            && g.size == (if offset + n > f.size then offset + n else f.size)
            && (f.count > 0 ==> g.start == f.start && g.count == f.count && r.freeStart == d.m.freeStart)
            && (f.count == 0 ==> f.size == 0 && d.m.freeStart <= r.freeStart)
            && (f.count == 0 && g.count > 0 ==> g.start == d.m.freeStart)
  {
    var i := Find(d.m.files, name);
    WriteSpreadIff(d.m, name, offset + n);
    assert Placed(d.m.files[i], d.m.freeStart);
    if NeedsBlocks(d.m.files[i], offset + n) {
      TakenExtent(d.m, i, offset + n);
    } else {
      KeptExtent(d.m, i, offset + n);
    }
  }

  lemma TakenExtent(m: Meta, i: nat, end: nat)
    requires i < |m.files| && Fitting(m.files[i], end, m.freeBlocks) && NeedsBlocks(m.files[i], end)
    requires m.files[i].count == 0 && Addressable(end) && OnDisk(m, m.files[i], end)
    ensures var g, r := Written(m.files[i], m.freeStart, end), WriteAt(m, i, end);
            && FirstByte(g) + end <= LastByte(g) <= r.freeStart * BLOCK <= SIZE
            && g.size == (if end > m.files[i].size then end else m.files[i].size)
            && g.start == m.freeStart <= r.freeStart
  {
    RequiredIsEnough(end);
    ExtentTaken(m, i, end);
  }

  lemma KeptExtent(m: Meta, i: nat, end: nat)
    requires i < |m.files| && Fitting(m.files[i], end, m.freeBlocks) && !NeedsBlocks(m.files[i], end)
    requires Placed(m.files[i], m.freeStart) && m.freeStart <= TOTAL && Addressable(end)
    ensures var g, r := Written(m.files[i], m.freeStart, end), WriteAt(m, i, end);
            && FirstByte(g) + end <= LastByte(g) <= r.freeStart * BLOCK <= SIZE
            && g.size == (if end > m.files[i].size then end else m.files[i].size)
            && g.start == m.files[i].start && g.count == m.files[i].count && r.freeStart == m.freeStart
  {
    RequiredIsEnough(end);
    SmallSize(end);
  }

  lemma ByteOfDataWritten(data: seq<byte>, f: File, g: File, offset: nat, bytes: seq<byte>, end: nat, k: nat)
    requires !Grows(f, end) && FirstByte(g) + offset + |bytes| <= |data| && k < |data|
    ensures var a := FirstByte(g) + offset;
            DataWritten(data, f, g, offset, bytes, end)[k] == if a <= k < a + |bytes| then bytes[k - a] else data[k]
  {
  }

  /** Another file's extent lies outside the one written. */
  lemma OtherExtent(d: Disk, name: string, offset: nat, n: nat, j: nat, k: nat)
    requires PlainWrite(d, name, offset + n) && j < MAX_FILES && j != Find(d.m.files, name)
    requires HasExtent(d.m.files[j]) && FirstByte(d.m.files[j]) <= k < LastByte(d.m.files[j])
    ensures var g := Written(d.m.files[Find(d.m.files, name)], d.m.freeStart, offset + n);
            !(FirstByte(g) + offset <= k < FirstByte(g) + offset + n)
  {
    var i := Find(d.m.files, name);
    var f := d.m.files[i];
    WrittenExtent(d, name, offset, n);
    ExtentInDisk(d, j);
    if f.count > 0 {
      if i < j {
        assert Apart(d.m.files[i], d.m.files[j]);
      } else {
        assert Apart(d.m.files[j], d.m.files[i]);
      }
    }
  }

  /** Behind a file's last byte the disk is still zero: the file written, ... */
  lemma SlackOfWritten(d: Disk, name: string, offset: nat, bytes: seq<byte>, k: nat)
    requires PlainWrite(d, name, offset + |bytes|) && k < SIZE
    requires var h := WriteFile(d, name, offset, bytes).m.files[Find(d.m.files, name)];
             HasExtent(h) && FirstByte(h) + h.size <= k < LastByte(h)
    ensures WriteFile(d, name, offset, bytes).data[k] == 0
  {
    var i := Find(d.m.files, name);
    var g := Written(d.m.files[i], d.m.freeStart, offset + |bytes|);
    WrittenExtent(d, name, offset, |bytes|);
    ByteOfDataWritten(d.data, d.m.files[i], g, offset, bytes, offset + |bytes|, k);
    HoleIsZero(d, i, g, k);
  }

  /** ... or any other. */
  lemma SlackZeroed(d: Disk, name: string, offset: nat, bytes: seq<byte>, j: nat, k: nat)
    requires PlainWrite(d, name, offset + |bytes|) && j < MAX_FILES && k < SIZE
    requires var h := WriteFile(d, name, offset, bytes).m.files[j];
             HasExtent(h) && FirstByte(h) + h.size <= k < LastByte(h)
    ensures WriteFile(d, name, offset, bytes).data[k] == 0
  {
    var i := Find(d.m.files, name);
    if j == i {
      SlackOfWritten(d, name, offset, bytes, k);
    } else {
      var g := Written(d.m.files[i], d.m.freeStart, offset + |bytes|);
      WrittenExtent(d, name, offset, |bytes|);
      ByteOfDataWritten(d.data, d.m.files[i], g, offset, bytes, offset + |bytes|, k);
      OtherExtent(d, name, offset, |bytes|, j, k);
    }
  }

  lemma WriteZeroed(d: Disk, name: string, offset: nat, bytes: seq<byte>)
    requires PlainWrite(d, name, offset + |bytes|)
    ensures Zeroed(WriteFile(d, name, offset, bytes))
  {
    var f := d.m.files[Find(d.m.files, name)];
    var g := Written(f, d.m.freeStart, offset + |bytes|);
    var r := WriteFile(d, name, offset, bytes);
    WrittenExtent(d, name, offset, |bytes|);
    forall k | r.m.freeStart * BLOCK <= k < |r.data|
      ensures r.data[k] == 0
    {
      ByteOfDataWritten(d.data, f, g, offset, bytes, offset + |bytes|, k);
    }
    forall j, k {:trigger r.m.files[j], r.data[k]}
      | 0 <= j < MAX_FILES && HasExtent(r.m.files[j]) && k < |r.data|
        && FirstByte(r.m.files[j]) + r.m.files[j].size <= k < LastByte(r.m.files[j])
      ensures r.data[k] == 0
    {
      SlackZeroed(d, name, offset, bytes, j, k);
    }
  }

  lemma WriteGood(d: Disk, name: string, offset: nat, bytes: seq<byte>)
    requires PlainWrite(d, name, offset + |bytes|)
    ensures Good(WriteFile(d, name, offset, bytes))
  {
    WriteSpreadIff(d.m, name, offset + |bytes|);
    WriteZeroed(d, name, offset, bytes);
  }

  /** Room for the stores, and for every byte of the file after them. */
  ghost predicate HasBytes(g: File, end: nat, k: nat) {
    FirstByte(g) + end <= SIZE && FirstByte(g) + k < SIZE && FirstByte(g) + k < LastByte(g) <= SIZE
  }

  lemma WrittenRoom(d: Disk, name: string, offset: nat, n: nat, k: nat)
    requires PlainWrite(d, name, offset + n)
    requires k < Written(d.m.files[Find(d.m.files, name)], d.m.freeStart, offset + n).size
    ensures HasBytes(Written(d.m.files[Find(d.m.files, name)], d.m.freeStart, offset + n), offset + n, k)
  {
    WrittenExtent(d, name, offset, n);
    if d.m.files[Find(d.m.files, name)].count > 0 {
      ExtentInDisk(d, Find(d.m.files, name));
    }
  }

  /** A byte of the written file: one of those written, or what the disk held there. */
  lemma WrittenOrOld(d: Disk, name: string, offset: nat, bytes: seq<byte>, k: nat)
    requires PlainWrite(d, name, offset + |bytes|)
    requires k < Written(d.m.files[Find(d.m.files, name)], d.m.freeStart, offset + |bytes|).size
    ensures var g := Written(d.m.files[Find(d.m.files, name)], d.m.freeStart, offset + |bytes|);
            && HasBytes(g, offset + |bytes|, k)
            && WriteFile(d, name, offset, bytes).data[FirstByte(g) + k]
               == if offset <= k < offset + |bytes| then bytes[k - offset] else d.data[FirstByte(g) + k]
  {
    var f := d.m.files[Find(d.m.files, name)];
    var g := Written(f, d.m.freeStart, offset + |bytes|);
    WrittenRoom(d, name, offset, |bytes|, k);
    ByteOfDataWritten(d.data, f, g, offset, bytes, offset + |bytes|, FirstByte(g) + k);
  }

  lemma WrittenByte(d: Disk, name: string, offset: nat, bytes: seq<byte>, k: nat)
    requires PlainWrite(d, name, offset + |bytes|)
    requires k < Written(d.m.files[Find(d.m.files, name)], d.m.freeStart, offset + |bytes|).size
    ensures var f := d.m.files[Find(d.m.files, name)];
            var g := Written(f, d.m.freeStart, offset + |bytes|);
            ByteIs(WriteFile(d, name, offset, bytes).data, g, k, OverlaidByte(d.data, f, offset, bytes, k))
  {
    var i := Find(d.m.files, name);
    var f := d.m.files[i];
    var g := Written(f, d.m.freeStart, offset + |bytes|);
    WrittenOrOld(d, name, offset, bytes, k);
    WrittenExtent(d, name, offset, |bytes|);
    if k >= f.size {
      HoleIsZero(d, i, g, FirstByte(g) + k);
    } else {
      assert f.count > 0;
    }
  }

  /** The written file's content: the bytes laid over the old content. */
  lemma WrittenContent(d: Disk, name: string, offset: nat, bytes: seq<byte>)
    requires PlainWrite(d, name, offset + |bytes|)
    ensures var f := d.m.files[Find(d.m.files, name)];
            var g := Written(f, d.m.freeStart, offset + |bytes|);
            Content(WriteFile(d, name, offset, bytes).data, g) == Overlay(Content(d.data, f), offset, bytes)
  {
    var f := d.m.files[Find(d.m.files, name)];
    var g := Written(f, d.m.freeStart, offset + |bytes|);
    var data := WriteFile(d, name, offset, bytes).data;
    WrittenExtent(d, name, offset, |bytes|);
    FileInDisk(d, Find(d.m.files, name));
    forall k | 0 <= k < g.size
      ensures ByteIs(data, g, k, OverlaidByte(d.data, f, offset, bytes, k))
    {
      WrittenByte(d, name, offset, bytes, k);
    }
    ContentIsOverlay(data, d.data, f, g, offset, bytes);
  }

  ghost predicate ByteIs(data: seq<byte>, g: File, k: nat, b: byte) {
    FirstByte(g) + k < |data| && data[FirstByte(g) + k] == b
  }

  ghost function OverlaidByte(data: seq<byte>, f: File, offset: nat, bytes: seq<byte>, k: nat): byte {
    if offset <= k < offset + |bytes| then bytes[k - offset]
    else if k < f.size && FirstByte(f) + k < |data| then data[FirstByte(f) + k] else 0
  }

  lemma ContentIsOverlay(data': seq<byte>, data: seq<byte>, f: File, g: File, offset: nat, bytes: seq<byte>)
    requires FirstByte(f) + f.size <= |data| && FirstByte(g) + g.size <= |data'|
    requires g.size == if offset + |bytes| > f.size then offset + |bytes| else f.size
    requires forall k :: 0 <= k < g.size ==> ByteIs(data', g, k, OverlaidByte(data, f, offset, bytes, k))
    ensures Content(data', g) == Overlay(Content(data, f), offset, bytes)
  {
    var was, now, over := Content(data, f), Content(data', g), Overlay(Content(data, f), offset, bytes);
    forall k | 0 <= k < g.size
      ensures now[k] == over[k]
    {
      assert ByteIs(data', g, k, OverlaidByte(data, f, offset, bytes, k));
    }
  }

  lemma FileInDisk(d: Disk, i: nat)
    requires Good(d) && i < MAX_FILES && d.m.files[i].inUse
    ensures FirstByte(d.m.files[i]) + d.m.files[i].size <= SIZE
  {
    if d.m.files[i].count > 0 {
      ExtentInDisk(d, i);
    }
  }

  /** Behind a file's last byte, in its blocks old or new, the disk is zero. */
  lemma HoleIsZero(d: Disk, i: nat, g: File, k: nat)
    requires Good(d) && i < MAX_FILES && d.m.files[i].inUse && LastByte(g) <= SIZE
    requires if d.m.files[i].count > 0 then g.start == d.m.files[i].start && g.count == d.m.files[i].count
             else g.start == d.m.freeStart
    requires FirstByte(g) + d.m.files[i].size <= k < LastByte(g)
    ensures d.data[k] == 0
  {
    if d.m.files[i].count > 0 {
      assert HasExtent(d.m.files[i]);
    }
  }

  lemma OtherByte(d: Disk, name: string, offset: nat, bytes: seq<byte>, j: nat, k: nat)
    requires PlainWrite(d, name, offset + |bytes|) && j < MAX_FILES && j != Find(d.m.files, name) && d.m.files[j].inUse
    requires FirstByte(d.m.files[j]) <= k < FirstByte(d.m.files[j]) + d.m.files[j].size && k < SIZE
    ensures WriteFile(d, name, offset, bytes).data[k] == d.data[k]
  {
    var f := d.m.files[Find(d.m.files, name)];
    WrittenExtent(d, name, offset, |bytes|);
    ByteOfDataWritten(d.data, f, Written(f, d.m.freeStart, offset + |bytes|), offset, bytes, offset + |bytes|, k);
    OtherExtent(d, name, offset, |bytes|, j, k);
  }

  lemma OtherContent(d: Disk, name: string, offset: nat, bytes: seq<byte>, j: nat)
    requires PlainWrite(d, name, offset + |bytes|) && j < MAX_FILES && j != Find(d.m.files, name) && d.m.files[j].inUse
    ensures Content(WriteFile(d, name, offset, bytes).data, d.m.files[j]) == Content(d.data, d.m.files[j])
  {
    var h := d.m.files[j];
    var data := WriteFile(d, name, offset, bytes).data;
    forall k | FirstByte(h) <= k < FirstByte(h) + h.size && k < SIZE
      ensures data[k] == d.data[k]
    {
      OtherByte(d, name, offset, bytes, j, k);
    }
    SameContent(d.data, data, h);
  }

  lemma SameContent(data: seq<byte>, data': seq<byte>, h: File)
    requires |data'| == |data|
    requires forall k :: FirstByte(h) <= k < FirstByte(h) + h.size && k < |data| ==> data'[k] == data[k]
    ensures Content(data', h) == Content(data, h)
  {
  }

  /** A write that succeeds lays exactly its bytes over the named file, zeros in any gap,
      and changes no other file. */
  lemma WriteRefines(d: Disk, name: string, offset: nat, bytes: seq<byte>, w: string)
    requires PlainWrite(d, name, offset + |bytes|)
    ensures var r := WriteFile(d, name, offset, bytes);
            && Good(r) && Lookup(d, name).Some?
            && Lookup(r, w) == if w == name then Some(Overlay(Lookup(d, name).value, offset, bytes)) else Lookup(d, w)
  {
    var i := Find(d.m.files, name);
    var g := Written(d.m.files[i], d.m.freeStart, offset + |bytes|);
    WriteGood(d, name, offset, bytes);
    FindSame(d.m.files, i, g, w);
    WrittenContent(d, name, offset, bytes);
    var j := Find(d.m.files, w);
    if w != name && j < MAX_FILES {
      OtherContent(d, name, offset, bytes, j);
    }
  }

  /** The named file's bytes are on the disk. */
  predicate ReadInBounds(d: Disk, name: string) {
    Exists(d.m, name) ==>
      var f := d.m.files[Find(d.m.files, name)];
      FirstByte(f) + f.size <= |d.data|
  }

  lemma GoodReadInBounds(d: Disk, name: string)
    requires Good(d)
    ensures ReadInBounds(d, name)
  {
    if Exists(d.m, name) {
      FileInDisk(d, Find(d.m.files, name));
    }
  }

  /** Moving a file that grows: both places on the disk. */
  predicate MoveInBounds(f: File, freeStart: nat, end: nat, size: nat) {
    Grows(f, end) ==> FirstByte(f) + f.size <= size && freeStart * BLOCK + f.size <= size
  }

  predicate StoresInBounds(f: File, freeStart: nat, offset: nat, n: nat, size: nat) {
    && FirstByte(Written(f, freeStart, offset + n)) + offset + n <= size
    && MoveInBounds(f, freeStart, offset + n, size)
  }

  /** The stores of a write stay on the disk. */
  predicate WriteInBounds(d: Disk, name: string, offset: nat, n: nat) {
    CanWrite(d.m, name, offset + n) ==>
      StoresInBounds(d.m.files[Find(d.m.files, name)], d.m.freeStart, offset, n, |d.data|)
  }

  lemma PlainWriteInBounds(d: Disk, name: string, offset: nat, n: nat)
    requires PlainWrite(d, name, offset + n)
    ensures WriteInBounds(d, name, offset, n)
  {
    WrittenExtent(d, name, offset, n);
  }

  // ----- reading back -----

  /** What was written is read back, and around it the old content. */
  lemma ReadOfOverlay(content: seq<byte>, offset: nat, bytes: seq<byte>)
    ensures ReadSlice(Overlay(content, offset, bytes), offset, |bytes|) == bytes
  {
    var c := Overlay(content, offset, bytes);
    if offset < |c| {
      assert c[offset..offset + |bytes|] == bytes;
      assert c[offset..][..|bytes|] == bytes;
    }
  }

  // ----- a file that grows -----

  /** Byte k of a file moved from byte `old_` of the disk to byte `new_`: a move upwards that
      overlaps repeats what lies before the new place. */
  function MovedByte(c: seq<byte>, old_: nat, new_: nat, k: nat): byte
    requires k < |c|
  {
    if old_ < new_ then c[k % (new_ - old_)] else c[k]
  }

  /** The move keeps every byte that is not written over anyway. */
  predicate KeptByMove(c: seq<byte>, old_: nat, new_: nat, offset: nat, end: nat) {
    forall k :: 0 <= k < |c| && !(offset <= k < end) ==> MovedByte(c, old_, new_, k) == c[k]
  }

  /** The gap before the bytes written is zero where it comes to lie. */
  predicate GapIsZero(data: seq<byte>, size: nat, new_: nat, offset: nat) {
    forall k :: new_ + size <= k < new_ + offset && k < |data| ==> data[k] == 0
  }

  /** The stores of a growing write stay on the disk. */
  predicate GrowsInBounds(d: Disk, i: nat, end: nat)
    requires i < |d.m.files|
  {
    var f := d.m.files[i];
    && |d.data| == SIZE && Grows(f, end) && Fitting(f, end, d.m.freeBlocks)
    && FirstByte(f) + f.size <= SIZE && d.m.freeStart * BLOCK + f.size <= SIZE && d.m.freeStart * BLOCK + end <= SIZE
  }

  /** Byte k of a file after it has grown. */
  function GrownByte(data: seq<byte>, c: seq<byte>, old_: nat, new_: nat, offset: nat, bytes: seq<byte>, k: nat): byte {
    if offset <= k < offset + |bytes| then bytes[k - offset]
    else if k < |c| then MovedByte(c, old_, new_, k)
    else if new_ + k < |data| then data[new_ + k] else 0
  }

  lemma ModInRange(k: nat, p: nat)
    requires p > 0
    ensures 0 <= k % p <= k
  {
    ModBelow(k, p);
    QuotientAndRemainder(k, p);
  }

  lemma MovedContent(data: seq<byte>, f: File, new_: nat, k: nat)
    requires FirstByte(f) + f.size <= |data| && new_ + f.size <= |data| && new_ + k < |data|
    ensures CopyUp(data, new_, FirstByte(f), f.size)[new_ + k] ==
            if k < f.size then MovedByte(Content(data, f), FirstByte(f), new_, k) else data[new_ + k]
  {
    CopyUpByte(data, new_, FirstByte(f), f.size, new_ + k);
    if k < f.size && FirstByte(f) < new_ {
      ModInRange(k, new_ - FirstByte(f));
    }
  }

  lemma DataOfGrowth(d: Disk, i: nat, offset: nat, bytes: seq<byte>)
    requires i < |d.m.files| && GrowsInBounds(d, i, offset + |bytes|)
    ensures var f, new_ := d.m.files[i], d.m.freeStart * BLOCK;
            WriteSlot(d, i, offset, bytes).data
            == StoreAt(CopyUp(d.data, new_, FirstByte(f), f.size), new_ + offset, bytes)
  {
    var f, end := d.m.files[i], offset + |bytes|;
    StartOfGrowth(f, d.m.freeStart, end);
    DataWrittenInGrowth(d.data, f, Written(f, d.m.freeStart, end), offset, bytes, end);
  }

  lemma StartOfGrowth(f: File, start: nat, end: nat)
    requires Grows(f, end)
    ensures Written(f, start, end).start == start
  {
  }

  lemma DataWrittenInGrowth(data: seq<byte>, f: File, g: File, offset: nat, bytes: seq<byte>, end: nat)
    requires Grows(f, end) && FirstByte(f) + f.size <= |data| && FirstByte(g) + f.size <= |data|
    ensures DataWritten(data, f, g, offset, bytes, end)
            == StoreAt(CopyUp(data, FirstByte(g), FirstByte(f), f.size), FirstByte(g) + offset, bytes)
  {
  }

  lemma EntryOfGrowth(d: Disk, i: nat, offset: nat, bytes: seq<byte>)
    requires i < |d.m.files| && GrowsInBounds(d, i, offset + |bytes|)
    ensures var g := WriteSlot(d, i, offset, bytes).m.files[i];
            && FirstByte(g) == d.m.freeStart * BLOCK
            && g.size == if offset + |bytes| > d.m.files[i].size then offset + |bytes| else d.m.files[i].size
  {
    ExtentTaken(d.m, i, offset + |bytes|);
    SmallSize(offset + |bytes|);
  }

  lemma SmallSize(n: nat)
    requires n <= SIZE
    ensures n % TWO_32 == n
  {
  }

  lemma GrownStore(data: seq<byte>, f: File, new_: nat, offset: nat, bytes: seq<byte>, k: nat, r: seq<byte>)
    requires FirstByte(f) + f.size <= |data| && new_ + f.size <= |data| && new_ + offset + |bytes| <= |data|
    requires new_ + k < |data| && r == StoreAt(CopyUp(data, new_, FirstByte(f), f.size), new_ + offset, bytes)
    ensures r[new_ + k] == GrownByte(data, Content(data, f), FirstByte(f), new_, offset, bytes, k)
  {
    StoredByte(CopyUp(data, new_, FirstByte(f), f.size), new_ + offset, bytes, new_ + k);
    MovedContent(data, f, new_, k);
    ContentAt(data, f);
  }

  lemma StoredByte(mem: seq<byte>, a: nat, bs: seq<byte>, k: nat)
    requires a + |bs| <= |mem| && k < |mem|
    ensures StoreAt(mem, a, bs)[k] == if a <= k < a + |bs| then bs[k - a] else mem[k]
  {
  }

  lemma OverlayIf(data: seq<byte>, c: seq<byte>, old_: nat, new_: nat, offset: nat, bytes: seq<byte>, k: nat)
    requires KeptByMove(c, old_, new_, offset, offset + |bytes|) && GapIsZero(data, |c|, new_, offset)
    requires k < |c| || k < offset + |bytes|
    ensures GrownByte(data, c, old_, new_, offset, bytes, k) == Overlay(c, offset, bytes)[k]
  {
    if |c| <= k < offset && new_ + k < |data| {
      assert data[new_ + k] == 0;
    }
  }

  lemma OverlayOnlyIf(data: seq<byte>, c: seq<byte>, old_: nat, new_: nat, offset: nat, bytes: seq<byte>)
    requires forall k :: 0 <= k < |Overlay(c, offset, bytes)| ==>
               GrownByte(data, c, old_, new_, offset, bytes, k) == Overlay(c, offset, bytes)[k]
    ensures KeptByMove(c, old_, new_, offset, offset + |bytes|) && GapIsZero(data, |c|, new_, offset)
  {
    var over := Overlay(c, offset, bytes);
    forall k | 0 <= k < |c| && !(offset <= k < offset + |bytes|)
      ensures MovedByte(c, old_, new_, k) == c[k]
    {
      assert GrownByte(data, c, old_, new_, offset, bytes, k) == over[k];
    }
    forall k | new_ + |c| <= k < new_ + offset && k < |data|
      ensures data[k] == 0
    {
      assert GrownByte(data, c, old_, new_, offset, bytes, k - new_) == over[k - new_];
    }
  }

  /** A write that grows a file overlays the file's own content exactly when the move keeps the
      bytes it is to keep and the gap, if there is one, comes to lie on zeros. */
  lemma GrowthOverlaysIff(d: Disk, i: nat, offset: nat, bytes: seq<byte>)
    requires i < |d.m.files| && GrowsInBounds(d, i, offset + |bytes|)
    ensures var f, r := d.m.files[i], WriteSlot(d, i, offset, bytes);
            var c, new_ := Content(d.data, f), d.m.freeStart * BLOCK;
            Content(r.data, r.m.files[i]) == Overlay(c, offset, bytes)
            <==> KeptByMove(c, FirstByte(f), new_, offset, offset + |bytes|) && GapIsZero(d.data, f.size, new_, offset)
  {
    var f, r := d.m.files[i], WriteSlot(d, i, offset, bytes);
    var c, new_ := Content(d.data, f), d.m.freeStart * BLOCK;
    var over := Overlay(c, offset, bytes);
    GrownContent(d, i, offset, bytes, r);
    var now := Content(r.data, r.m.files[i]);
    if now == over {
      OverlayOnlyIf(d.data, c, FirstByte(f), new_, offset, bytes);
    }
    if KeptByMove(c, FirstByte(f), new_, offset, offset + |bytes|) && GapIsZero(d.data, f.size, new_, offset) {
      forall k | 0 <= k < |now|
        ensures now[k] == over[k]
      {
        OverlayIf(d.data, c, FirstByte(f), new_, offset, bytes, k);
      }
    }
  }

  lemma ContentAt(data: seq<byte>, g: File)
    requires FirstByte(g) + g.size <= |data|
    ensures |Content(data, g)| == g.size && forall k :: 0 <= k < g.size ==> Content(data, g)[k] == data[FirstByte(g) + k]
  {
  }

  /** What a file that grows becomes, byte by byte. */
  ghost predicate GrownInto(data: seq<byte>, f: File, new_: nat, offset: nat, bytes: seq<byte>, now: seq<byte>) {
    var c := Content(data, f);
    && |c| == f.size && |now| == |Overlay(c, offset, bytes)|
    && forall k :: 0 <= k < |now| ==> now[k] == GrownByte(data, c, FirstByte(f), new_, offset, bytes, k)
  }

  /** The move and the store, and the entry that goes with them. */
  ghost predicate IsGrown(data: seq<byte>, f: File, new_: nat, offset: nat, bytes: seq<byte>, data': seq<byte>, g: File) {
    && FirstByte(f) + f.size <= |data| && new_ + f.size <= |data| && new_ + offset + |bytes| <= |data|
    && data' == StoreAt(CopyUp(data, new_, FirstByte(f), f.size), new_ + offset, bytes) && |data'| == |data|
    && FirstByte(g) == new_ && g.size == if offset + |bytes| > f.size then offset + |bytes| else f.size
  }

  lemma GrowthIs(d: Disk, i: nat, offset: nat, bytes: seq<byte>)
    requires i < |d.m.files| && GrowsInBounds(d, i, offset + |bytes|)
    ensures var r := WriteSlot(d, i, offset, bytes);
            IsGrown(d.data, d.m.files[i], d.m.freeStart * BLOCK, offset, bytes, r.data, r.m.files[i])
  {
    EntryOfGrowth(d, i, offset, bytes);
    DataOfGrowth(d, i, offset, bytes);
  }

  lemma GrownContent(d: Disk, i: nat, offset: nat, bytes: seq<byte>, r: Disk)
    requires i < |d.m.files| && GrowsInBounds(d, i, offset + |bytes|) && r == WriteSlot(d, i, offset, bytes)
    ensures GrownInto(d.data, d.m.files[i], d.m.freeStart * BLOCK, offset, bytes, Content(r.data, r.m.files[i]))
  {
    GrowthIs(d, i, offset, bytes);
    GrownBytes(d.data, d.m.files[i], d.m.freeStart * BLOCK, offset, bytes, r.data, r.m.files[i]);
  }

  lemma GrownBytes(data: seq<byte>, f: File, new_: nat, offset: nat, bytes: seq<byte>, data': seq<byte>, g: File)
    requires IsGrown(data, f, new_, offset, bytes, data', g)
    ensures GrownInto(data, f, new_, offset, bytes, Content(data', g))
  {
    var c, now := Content(data, f), Content(data', g);
    ContentAt(data, f);
    ContentAt(data', g);
    forall k | 0 <= k < |now|
      ensures now[k] == GrownByte(data, c, FirstByte(f), new_, offset, bytes, k)
    {
      GrownStore(data, f, new_, offset, bytes, k, data');
    }
  }

  /** On a disk in good order it does, and keeps every other file: it is what comes after it that
      goes wrong. */
  lemma GrowthRefines(d: Disk, name: string, offset: nat, bytes: seq<byte>, w: string)
    requires Good(d) && CanWrite(d.m, name, offset + |bytes|) && Addressable(offset + |bytes|)
    requires Grows(d.m.files[Find(d.m.files, name)], offset + |bytes|)
    requires OnDisk(d.m, d.m.files[Find(d.m.files, name)], offset + |bytes|)
    ensures Lookup(d, name).Some?
    ensures Lookup(WriteFile(d, name, offset, bytes), w) ==
            if w == name then Some(Overlay(Lookup(d, name).value, offset, bytes)) else Lookup(d, w)
  {
    var i, end := Find(d.m.files, name), offset + |bytes|;
    var f, r := d.m.files[i], WriteFile(d, name, offset, bytes);
    RequiredIsEnough(end);
    ExtentInDisk(d, i);
    GrowthOverlaysIff(d, i, offset, bytes);
    MovedClear(d, i, offset, end);
    FindSame(d.m.files, i, r.m.files[i], w);
    var j := Find(d.m.files, w);
    if w != name && j < MAX_FILES {
      OtherKeptByGrowth(d, i, offset, bytes, j);
    }
  }

  /** The new place is beyond the old one, and free. */
  lemma MovedClear(d: Disk, i: nat, offset: nat, end: nat)
    requires Good(d) && i < MAX_FILES && HasExtent(d.m.files[i])
    ensures var f, new_ := d.m.files[i], d.m.freeStart * BLOCK;
            KeptByMove(Content(d.data, f), FirstByte(f), new_, offset, end) && GapIsZero(d.data, f.size, new_, offset)
  {
    var f, new_ := d.m.files[i], d.m.freeStart * BLOCK;
    ExtentInDisk(d, i);
    var c := Content(d.data, f);
    forall k | 0 <= k < |c|
      ensures MovedByte(c, FirstByte(f), new_, k) == c[k]
    {
      ModBelow(k, new_ - FirstByte(f));
    }
  }

  lemma OtherKeptByGrowth(d: Disk, i: nat, offset: nat, bytes: seq<byte>, j: nat)
    requires Good(d) && i < MAX_FILES && j < MAX_FILES && j != i && d.m.files[j].inUse
    requires GrowsInBounds(d, i, offset + |bytes|)
    ensures Content(WriteSlot(d, i, offset, bytes).data, d.m.files[j]) == Content(d.data, d.m.files[j])
  {
    var f, h, new_ := d.m.files[i], d.m.files[j], d.m.freeStart * BLOCK;
    var data := WriteSlot(d, i, offset, bytes).data;
    if h.count > 0 {
      ExtentInDisk(d, j);
      forall k | FirstByte(h) <= k < FirstByte(h) + h.size && k < SIZE
        ensures data[k] == d.data[k]
      {
        CopyUpByte(d.data, new_, FirstByte(f), f.size, k);
      }
    }
    SameContent(d.data, data, h);
  }

  /** The disk ramdisk_create makes. */
  function FreshDisk(): Disk {
    Disk(Fresh(), Zeros(SIZE))
  }

  lemma {:induction false} CountsOfCleared(files: seq<File>)
    requires forall i :: 0 <= i < |files| ==> files[i] == CLEARED
    ensures Counts(files) == 0
  {
    if files != [] {
      CountsOfCleared(files[1..]);
    }
  }

  lemma {:induction false} NoneFound(files: seq<File>, w: string)
    requires forall i :: 0 <= i < |files| ==> files[i] == CLEARED
    ensures Find(files, w) == |files|
  {
    FindUnique(files, w, |files|);
  }

  lemma ClearedIsGood(d: Disk)
    requires |d.m.files| == MAX_FILES && |d.data| == SIZE && d.m.freeStart == 0 && d.m.freeBlocks == TOTAL
    requires forall i :: 0 <= i < |d.m.files| ==> d.m.files[i] == CLEARED
    requires forall k :: 0 <= k < |d.data| ==> d.data[k] == 0
    ensures Good(d)
  {
  }

  lemma FreshIsGood()
    ensures Good(FreshDisk())
  {
    var files := FreshDisk().m.files;
    assert forall i :: 0 <= i < |files| ==> files[i] == CLEARED;
    ClearedIsGood(FreshDisk());
  }

  /** The new disk is in good order, accounted for, and holds no file. */
  lemma FreshDiskIsGood(w: string)
    ensures Good(FreshDisk()) && Accounted(FreshDisk().m) && Lookup(FreshDisk(), w) == None
    ensures |FreshDisk().m.files| == 64 && FreshDisk().m.freeBlocks == 2048 && |FreshDisk().data| == 2048 * 512
  {
    FreshIsGood();
    CountsOfCleared(FreshDisk().m.files);
    NoneFound(FreshDisk().m.files, w);
  }

  // ----- every run, against the store the disk stands for -----

  /** What the callers of the RAM disk have: contents by name, the blocks free and the next one
      to be handed out. */
  datatype Store = Store(files: map<string, seq<byte>>, free: nat, next: nat)

  datatype DiskOp =
    | CreateFile(name: string, flags: nat)
    | WriteBytes(name: string, offset: nat, bytes: seq<byte>)
    | DeleteFile(name: string)

  /** The blocks a content occupies. */
  function BlocksOf(content: seq<byte>): nat { Required(|content|) }

  /** The blocks a write still has to get. */
  function Missing(content: seq<byte>, end: nat): nat {
    if Required(end) > BlocksOf(content) then Required(end) - BlocksOf(content) else 0
  }

  predicate Allowed(s: Store, op: DiskOp) {
    match op
    case CreateFile(name, _) => |name| < NAME_LEN && name !in s.files && |s.files| < MAX_FILES
    case WriteBytes(name, offset, bytes) =>
      name in s.files && Missing(s.files[name], offset + |bytes|) <= s.free
    case DeleteFile(name) => name in s.files
  }

  function Step(s: Store, op: DiskOp): Store {
    if !Allowed(s, op) then s
    else match op
      case CreateFile(name, _) => s.(files := s.files[name := []])
      case WriteBytes(name, offset, bytes) =>
        var c := s.files[name];
        var n := Missing(c, offset + |bytes|);
        Store(s.files[name := Overlay(c, offset, bytes)], s.free - n, s.next + n)
      case DeleteFile(name) => Store(s.files - {name}, s.free + BlocksOf(s.files[name]), s.next)
  }

  /** The runs on which the disk keeps to the store: a write that is allowed needs blocks only for
      an empty file, and gets none past the end of the disk. */
  predicate Keeping(s: Store, op: DiskOp) {
    match op
    case CreateFile(_, _) => true
    case WriteBytes(name, offset, bytes) =>
      var end := offset + |bytes|;
      Addressable(end) && (Allowed(s, op) && Missing(s.files[name], end) > 0 ==>
        s.files[name] == [] && s.next + Required(end) <= TOTAL)
    case DeleteFile(_) => true
  }

  function StepAll(s: Store, ops: seq<DiskOp>): Store
    decreases |ops|
  {
    if ops == [] then s else StepAll(Step(s, ops[0]), ops[1..])
  }

  predicate KeepingAll(s: Store, ops: seq<DiskOp>)
    decreases |ops|
  {
    ops == [] || (Keeping(s, ops[0]) && KeepingAll(Step(s, ops[0]), ops[1..]))
  }

  /** Which operations succeed. */
  function Outcomes(s: Store, ops: seq<DiskOp>): seq<bool>
    decreases |ops|
  {
    if ops == [] then [] else [Allowed(s, ops[0])] + Outcomes(Step(s, ops[0]), ops[1..])
  }

  function ExecOp(d: Disk, op: DiskOp): Disk {
    match op
    case CreateFile(name, flags) => d.(m := Create(d.m, name, flags))
    case WriteBytes(name, offset, bytes) => WriteFile(d, name, offset, bytes)
    case DeleteFile(name) => d.(m := Delete(d.m, name))
  }

  predicate Succeeds(d: Disk, op: DiskOp) {
    match op
    case CreateFile(name, _) => CanCreate(d.m, name)
    case WriteBytes(name, offset, bytes) => CanWrite(d.m, name, offset + |bytes|)
    case DeleteFile(name) => Exists(d.m, name)
  }

  function RunOps(d: Disk, ops: seq<DiskOp>): Disk
    decreases |ops|
  {
    if ops == [] then d else RunOps(ExecOp(d, ops[0]), ops[1..])
  }

  function Successes(d: Disk, ops: seq<DiskOp>): seq<bool>
    decreases |ops|
  {
    if ops == [] then [] else [Succeeds(d, ops[0])] + Successes(ExecOp(d, ops[0]), ops[1..])
  }

  // ----- the numbers: slots in use, blocks of a content -----

  function Used(files: seq<File>): nat {
    if files == [] then 0 else (if files[0].inUse then 1 else 0) + Used(files[1..])
  }

  function One(f: File): nat { if f.inUse then 1 else 0 }

  lemma {:induction false} UsedOfUpdate(files: seq<File>, i: nat, f: File)
    requires i < |files|
    ensures Used(files[i := f]) + One(files[i]) == Used(files) + One(f)
  {
    if i == 0 {
      assert files[0 := f][1..] == files[1..];
    } else {
      assert files[i := f][1..] == files[1..][i - 1 := f];
      UsedOfUpdate(files[1..], i - 1, f);
    }
  }

  lemma {:induction false} FreeSlotIff(files: seq<File>)
    ensures Used(files) <= |files|
    ensures FreeSlot(files) < |files| <==> Used(files) < |files|
  {
    if files != [] {
      FreeSlotIff(files[1..]);
    }
  }

  lemma {:induction false} UsedOfCleared(files: seq<File>)
    requires forall i :: 0 <= i < |files| ==> files[i] == CLEARED
    ensures Used(files) == 0
  {
    if files != [] {
      UsedOfCleared(files[1..]);
    }
  }

  /** Every file has just the blocks its bytes need. */
  ghost predicate Snug(files: seq<File>) {
    forall i :: 0 <= i < |files| && files[i].inUse ==> SnugFile(files[i])
  }

  predicate SnugFile(f: File) { f.count == Required(f.size) && f.size <= SIZE }

  lemma RequiredMonotone(a: nat, b: nat)
    requires Addressable(b) && a <= b
    ensures Required(a) <= Required(b)
  {
    RequiredIsEnough(a);
    RequiredIsEnough(b);
  }

  lemma RequiredZero(n: nat)
    requires Addressable(n)
    ensures Required(n) == 0 <==> n == 0
  {
  }

  // ----- the disk stands for a store -----

  ghost predicate Holding(d: Disk, files: map<string, seq<byte>>) {
    forall w {:trigger Lookup(d, w)} ::
      (w in files <==> Lookup(d, w).Some?) && (w in files ==> Lookup(d, w) == Some(files[w]))
  }

  ghost predicate StandsFor(d: Disk, s: Store) {
    && Good(d) && Snug(d.m.files) && Holding(d, s.files)
    && |s.files| == Used(d.m.files) && s.free == d.m.freeBlocks && s.next == d.m.freeStart
  }

  lemma ContentLength(d: Disk, i: nat)
    requires Good(d) && i < MAX_FILES && d.m.files[i].inUse
    ensures |Content(d.data, d.m.files[i])| == d.m.files[i].size
  {
    FileInDisk(d, i);
  }

  /** The file of a name and its content. */
  lemma FileOf(d: Disk, s: Store, name: string)
    requires StandsFor(d, s)
    ensures name in s.files <==> Exists(d.m, name)
    ensures name in s.files ==>
              var f := d.m.files[Find(d.m.files, name)];
              s.files[name] == Content(d.data, f) && |s.files[name]| == f.size && f.count == BlocksOf(s.files[name]) && f.inUse
  {
    assert Lookup(d, name).Some? <==> Exists(d.m, name);
    if Exists(d.m, name) {
      var i := Find(d.m.files, name);
      ContentLength(d, i);
      assert SnugFile(d.m.files[i]);
    }
  }

  /** The store tells which operations succeed. */
  lemma SameOutcome(d: Disk, s: Store, op: DiskOp)
    requires StandsFor(d, s)
    ensures Succeeds(d, op) == Allowed(s, op)
  {
    FileOf(d, s, op.name);
    FreeSlotIff(d.m.files);
  }

  lemma CreateStandsFor(d: Disk, s: Store, op: DiskOp)
    requires StandsFor(d, s) && op.CreateFile? && Allowed(s, op)
    ensures StandsFor(ExecOp(d, op), Step(s, op))
  {
    SameOutcome(d, s, op);
    var i, f := FreeSlot(d.m.files), File(op.name, op.flags, 0, 0, 0, true);
    var r := ExecOp(d, op);
    UsedOfUpdate(d.m.files, i, f);
    RequiredZero(0);
    CreateGood(d, op.name, op.flags);
    forall w
      ensures Lookup(r, w) == if w == op.name then Some([]) else Lookup(d, w)
    {
      CreateRefines(d, op.name, op.flags, w);
    }
    assert Holding(r, s.files[op.name := []]);
  }

  lemma DeleteStandsFor(d: Disk, s: Store, op: DiskOp)
    requires StandsFor(d, s) && op.DeleteFile? && Allowed(s, op)
    ensures StandsFor(ExecOp(d, op), Step(s, op))
  {
    FileOf(d, s, op.name);
    var i := Find(d.m.files, op.name);
    var r := ExecOp(d, op);
    UsedOfUpdate(d.m.files, i, CLEARED);
    forall w
      ensures Good(r) && Lookup(r, w) == if w == op.name then None else Lookup(d, w)
    {
      DeleteRefines(d, op.name, w);
    }
    assert Good(r) by { DeleteRefines(d, op.name, op.name); }
    assert Holding(r, s.files - {op.name});
    CardinalityWithout(s.files, op.name);
  }

  lemma CardinalityWithout(m: map<string, seq<byte>>, name: string)
    requires name in m
    ensures |m - {name}| == |m| - 1
  {
    assert m == (m - {name})[name := m[name]];
  }

  /** A write in keeping with the store is a plain one. */
  lemma KeepingIsPlain(d: Disk, s: Store, op: DiskOp)
    requires StandsFor(d, s) && op.WriteBytes? && Allowed(s, op) && Keeping(s, op)
    ensures PlainWrite(d, op.name, op.offset + |op.bytes|)
    ensures TakenBlocks(d.m.files[Find(d.m.files, op.name)], op.offset + |op.bytes|)
            == Missing(s.files[op.name], op.offset + |op.bytes|)
  {
    SameOutcome(d, s, op);
    FileOf(d, s, op.name);
    RequiredZero(0);
  }

  lemma WriteKeepsSnug(d: Disk, name: string, end: nat)
    requires PlainWrite(d, name, end) && Snug(d.m.files)
    ensures Snug(Write(d.m, name, end).files)
  {
    var i := Find(d.m.files, name);
    var f := d.m.files[i];
    var g := Written(f, d.m.freeStart, end);
    assert SnugFile(f);
    WrittenExtent(d, name, 0, end);
    WrittenIsSnug(f, d.m.freeStart, end);
    assert Write(d.m, name, end).files == d.m.files[i := g];
  }

  lemma WrittenIsSnug(f: File, start: nat, end: nat)
    requires SnugFile(f) && Addressable(end) && !Grows(f, end) && (f.count == 0 ==> f.size == 0)
    requires var g := Written(f, start, end);
             g.size == (if end > f.size then end else f.size) && g.size <= SIZE
    ensures SnugFile(Written(f, start, end))
  {
    RequiredZero(end);
    if end > f.size {
      RequiredMonotone(f.size, end);
    }
  }

  lemma WriteHolds(d: Disk, s: Store, op: DiskOp)
    requires StandsFor(d, s) && op.WriteBytes? && PlainWrite(d, op.name, op.offset + |op.bytes|) && op.name in s.files
    ensures Holding(ExecOp(d, op), s.files[op.name := Overlay(s.files[op.name], op.offset, op.bytes)])
  {
    FileOf(d, s, op.name);
    forall w
      ensures Lookup(ExecOp(d, op), w) ==
              if w == op.name then Some(Overlay(s.files[op.name], op.offset, op.bytes)) else Lookup(d, w)
    {
      WriteRefines(d, op.name, op.offset, op.bytes, w);
    }
  }

  lemma WriteCounts(d: Disk, name: string, end: nat)
    requires PlainWrite(d, name, end)
    ensures var n, r := TakenBlocks(d.m.files[Find(d.m.files, name)], end), Write(d.m, name, end);
            Used(r.files) == Used(d.m.files) && r.freeBlocks == d.m.freeBlocks - n && r.freeStart == d.m.freeStart + n
  {
    var i := Find(d.m.files, name);
    UsedOfUpdate(d.m.files, i, Written(d.m.files[i], d.m.freeStart, end));
  }

  lemma WriteStandsFor(d: Disk, s: Store, op: DiskOp)
    requires StandsFor(d, s) && op.WriteBytes? && Allowed(s, op) && Keeping(s, op)
    ensures StandsFor(ExecOp(d, op), Step(s, op))
  {
    KeepingIsPlain(d, s, op);
    WriteKeepsSnug(d, op.name, op.offset + |op.bytes|);
    WriteCounts(d, op.name, op.offset + |op.bytes|);
    WriteGood(d, op.name, op.offset, op.bytes);
    WriteHolds(d, s, op);
    StepOfWrite(s, op);
    ExecOfWrite(d, op);
  }

  lemma StepOfWrite(s: Store, op: DiskOp)
    requires op.WriteBytes? && Allowed(s, op)
    ensures var n, r := Missing(s.files[op.name], op.offset + |op.bytes|), Step(s, op);
            && r.files == s.files[op.name := Overlay(s.files[op.name], op.offset, op.bytes)]
            && r.free == s.free - n && r.next == s.next + n && |r.files| == |s.files|
  {
  }

  lemma ExecOfWrite(d: Disk, op: DiskOp)
    requires op.WriteBytes?
    ensures ExecOp(d, op) == WriteFile(d, op.name, op.offset, op.bytes)
    ensures ExecOp(d, op).m == Write(d.m, op.name, op.offset + |op.bytes|)
  {
  }

  /** One operation, refused or not. */
  lemma ExecStandsFor(d: Disk, s: Store, op: DiskOp)
    requires StandsFor(d, s) && Keeping(s, op)
    ensures Succeeds(d, op) == Allowed(s, op) && StandsFor(ExecOp(d, op), Step(s, op))
  {
    SameOutcome(d, s, op);
    if Allowed(s, op) {
      match op
      case CreateFile(_, _) => CreateStandsFor(d, s, op);
      case WriteBytes(_, _, _) => WriteStandsFor(d, s, op);
      case DeleteFile(_) => DeleteStandsFor(d, s, op);
    }
  }

  /** On every such run the disk goes on standing for the store, and the same operations succeed. */
  lemma {:induction false} RunRefinesStore(d: Disk, s: Store, ops: seq<DiskOp>)
    requires StandsFor(d, s) && KeepingAll(s, ops)
    ensures StandsFor(RunOps(d, ops), StepAll(s, ops)) && Successes(d, ops) == Outcomes(s, ops)
    decreases |ops|
  {
    if ops != [] {
      ExecStandsFor(d, s, ops[0]);
      RunRefinesStore(ExecOp(d, ops[0]), Step(s, ops[0]), ops[1..]);
    }
  }

  /** The new disk stands for the empty store. */
  lemma FreshStandsForEmpty()
    ensures StandsFor(FreshDisk(), Store(map[], TOTAL, 0))
  {
    FreshIsGood();
    UsedOfCleared(FreshDisk().m.files);
    forall w
      ensures Lookup(FreshDisk(), w) == None
    {
      FreshDiskIsGood(w);
    }
  }

  /** As long as only empty files are deleted, free blocks are on the disk: such a run needs only
      keep from growing files. */
  lemma BalancedKeeping(s: Store, op: DiskOp)
    requires s.next + s.free == TOTAL
    requires op.WriteBytes? ==> Addressable(op.offset + |op.bytes|)
    requires op.WriteBytes? && op.name in s.files && s.files[op.name] != [] ==>
               Missing(s.files[op.name], op.offset + |op.bytes|) == 0
    ensures Keeping(s, op)
    ensures !(op.DeleteFile? && op.name in s.files && s.files[op.name] != []) ==> Step(s, op).next + Step(s, op).free == TOTAL
  {
    RequiredZero(0);
  }

  // ----- what comes after a growing write -----

  /** A write that grows a file, on a disk in good order and with room for it. */
  ghost predicate GrowsOnGoodDisk(d: Disk, name: string, end: nat) {
    && Good(d) && CanWrite(d.m, name, end) && Addressable(end)
    && Grows(d.m.files[Find(d.m.files, name)], end) && OnDisk(d.m, d.m.files[Find(d.m.files, name)], end)
  }

  /** The entries after the file at slot i has grown: its new extent holds more blocks than
      have been taken for it. */
  lemma GrownEntry(m: Meta, i: nat, end: nat)
    requires i < |m.files| && Spread(m) && m.files[i].inUse && Addressable(end)
    requires Grows(m.files[i], end) && Fitting(m.files[i], end, m.freeBlocks) && OnDisk(m, m.files[i], end)
    ensures var f, r := m.files[i], WriteAt(m, i, end);
            && r.files[i].start == m.freeStart && r.files[i].size == end
            && r.freeStart == m.freeStart + (Required(end) - f.count) <= TOTAL
            && (Required(end) - f.count) * BLOCK < end
  {
    ExtentTaken(m, i, end);
    RequiredIsEnough(end);
    assert Placed(m.files[i], m.freeStart);
    SmallSize(end);
  }

  /** The first write to an empty file: the bytes go where the free space begins. */
  lemma FirstWrite(d: Disk, name: string, z: seq<byte>)
    requires CanWrite(d.m, name, |z|) && d.m.files[Find(d.m.files, name)].count == 0 && z != [] && Addressable(|z|)
    ensures var j, r := Find(d.m.files, name), WriteFile(d, name, 0, z);
            && r.data == StoreAt(d.data, d.m.freeStart * BLOCK, z)
            && r.m.files == d.m.files[j := r.m.files[j]] && Holds(r.m.files[j], name)
  {
    RequiredIsEnough(|z|);
    ExtentTaken(d.m, Find(d.m.files, name), |z|);
  }

  /** A stretch of a content written over from outside. */
  lemma ContentStored(data: seq<byte>, g: File, p: nat, z: seq<byte>, k: nat)
    requires FirstByte(g) + g.size <= |data| && FirstByte(g) + p + |z| <= |data| && k < g.size
    ensures var c, c' := Content(data, g), Content(StoreAt(data, FirstByte(g) + p, z), g);
            |c| == |c'| == g.size && c'[k] == if p <= k < p + |z| then z[k - p] else c[k]
  {
    ContentAt(data, g);
    ContentAt(StoreAt(data, FirstByte(g) + p, z), g);
  }

  /** The file is on the disk with n bytes, and the free space begins inside it, at its byte p. */
  ghost predicate ReachesOver(g: Disk, name: string, n: nat, p: nat) {
    && |g.data| == SIZE && Exists(g.m, name)
    && var h := g.m.files[Find(g.m.files, name)];
       h.size == n && FirstByte(h) + n <= SIZE && FirstByte(h) + p == g.m.freeStart * BLOCK && p < n
  }

  /** So it is with a file that has grown. */
  lemma GrownFile(d: Disk, name: string, offset: nat, bytes: seq<byte>, g: Disk, p: nat)
    requires GrowsOnGoodDisk(d, name, offset + |bytes|) && g == WriteFile(d, name, offset, bytes)
    requires p == (Required(offset + |bytes|) - d.m.files[Find(d.m.files, name)].count) * BLOCK
    ensures ReachesOver(g, name, offset + |bytes|, p)
  {
    var i, end := Find(d.m.files, name), offset + |bytes|;
    GrownEntry(d.m, i, end);
    RequiredIsEnough(end);
    FindSame(d.m.files, i, g.m.files[i], name);
  }

  /** What a content becomes when z comes to lie over it from byte p on. */
  ghost predicate LaidOver(a: Option<seq<byte>>, a': Option<seq<byte>>, p: nat, z: seq<byte>) {
    && a.Some? && a'.Some? && |a.value| == |a'.value|
    && forall k :: 0 <= k < |a.value| ==> a'.value[k] == if p <= k < p + |z| then z[k - p] else a.value[k]
  }

  /** A first write to an empty file. */
  predicate WritesFirst(g: Disk, other: string, z: seq<byte>) {
    && CanWrite(g.m, other, |z|) && g.m.files[Find(g.m.files, other)].count == 0
    && z != [] && g.m.freeStart * BLOCK + |z| <= SIZE
  }

  lemma FirstWriteOver(g: Disk, name: string, n: nat, other: string, p: nat, z: seq<byte>)
    requires ReachesOver(g, name, n, p) && other != name && WritesFirst(g, other, z)
    ensures Lookup(g, name).Some? && |Lookup(g, name).value| == n
    ensures LaidOver(Lookup(g, name), Lookup(WriteFile(g, other, 0, z), name), p, z)
  {
    var j, r, h := Find(g.m.files, other), WriteFile(g, other, 0, z), g.m.files[Find(g.m.files, name)];
    FirstWrite(g, other, z);
    FindSame(g.m.files, j, r.m.files[j], name);
    forall k | 0 <= k < h.size
      ensures |Content(g.data, h)| == |Content(r.data, h)| == h.size
      ensures Content(r.data, h)[k] == if p <= k < p + |z| then z[k - p] else Content(g.data, h)[k]
    {
      ContentStored(g.data, h, p, z, k);
    }
    ContentAt(g.data, h);
    ContentAt(r.data, h);
  }

  /** After a file has grown, the first bytes written to any other empty file come to lie over
      its content, from the blocks on that were taken for it last. */
  lemma NextWriteLandsInGrown(d: Disk, name: string, offset: nat, bytes: seq<byte>,
                              g: Disk, other: string, z: seq<byte>, p: nat)
    requires GrowsOnGoodDisk(d, name, offset + |bytes|) && g == WriteFile(d, name, offset, bytes)
    requires other != name && WritesFirst(g, other, z)
    requires p == (Required(offset + |bytes|) - d.m.files[Find(d.m.files, name)].count) * BLOCK
    ensures Lookup(g, name).Some? && p < |Lookup(g, name).value|
    ensures LaidOver(Lookup(g, name), Lookup(WriteFile(g, other, 0, z), name), p, z)
  {
    GrownFile(d, name, offset, bytes, g, p);
    FirstWriteOver(g, name, offset + |bytes|, other, p, z);
  }

  /** Two files, the first of them with one block of 512 bytes. */
  ghost predicate OneWritten(d: Disk, x: seq<byte>) {
    Good(d) && OneTaken(d.m) && Lookup(d, "a") == Some(x)
  }

  lemma TwoCreated(d: Disk)
    requires Good(d) && d.m.freeStart == 0 && d.m.freeBlocks == TOTAL
    requires forall i :: 0 <= i < MAX_FILES ==> d.m.files[i] == CLEARED
    ensures var r := ExecOp(ExecOp(d, CreateFile("a", 0)), CreateFile("b", 0));
            Good(r) && TwoEmpty(r.m) && Lookup(r, "a") == Some([])
  {
    CreateBoth(d.m);
    CreateGood(d, "a", 0);
    var d1 := ExecOp(d, CreateFile("a", 0));
    CreateGood(d1, "b", 0);
    var r := ExecOp(d1, CreateFile("b", 0));
    FindBoth(r.m, Empty("a"), Empty("b"));
  }

  lemma TwoOnNewDisk()
    ensures var r := ExecOp(ExecOp(FreshDisk(), CreateFile("a", 0)), CreateFile("b", 0));
            Good(r) && TwoEmpty(r.m) && Lookup(r, "a") == Some([])
  {
    FreshIsGood();
    TwoCreated(FreshDisk());
  }

  lemma OneBlockWritten(d: Disk, x: seq<byte>)
    requires Good(d) && TwoEmpty(d.m) && Lookup(d, "a") == Some([]) && |x| == 512
    ensures OneWritten(WriteFile(d, "a", 0, x), x)
  {
    FindBoth(d.m, Empty("a"), Empty("b"));
    RequiredOf();
    WriteFirst(d.m, Empty("a"), Empty("b"), 512);
    WriteGood(d, "a", 0, x);
    WriteRefines(d, "a", 0, x, "a");
    OverlayAll([], x);
    WriteOneBlock(d.m);
  }

  lemma OverlayAll(c: seq<byte>, bytes: seq<byte>)
    requires |c| <= |bytes|
    ensures Overlay(c, 0, bytes) == bytes
  {
  }

  lemma GrownOnce(d: Disk, x: seq<byte>, y: seq<byte>)
    requires OneWritten(d, x) && |x| == 512 && |y| == 1024
    ensures GrowsOnGoodDisk(d, "a", 1024) && CanWrite(d.m, "a", 1024)
    ensures d.m.files[Find(d.m.files, "a")].count == 1 && Required(1024) == 2
    ensures var g := WriteFile(d, "a", 0, y);
            && Lookup(g, "a") == Some(y)
            && CanWrite(g.m, "b", 512) && g.m.files[Find(g.m.files, "b")].count == 0 && g.m.freeStart == 2
  {
    Grown(d.m);
    RequiredOf();
    FindBoth(d.m, OneBlock(), Empty("b"));
    GrowthRefines(d, "a", 0, y, "a");
    OverlayAll(x, y);
    GrownEntry(d.m, 0, 1024);
  }

  /** The second block of a is where b's first bytes go. */
  lemma GrownThenOther(d: Disk, x: seq<byte>, y: seq<byte>, z: seq<byte>)
    requires OneWritten(d, x) && |x| == 512 && |y| == 1024 && |z| == 512
    ensures var g := WriteFile(d, "a", 0, y);
            Lookup(g, "a") == Some(y) && Lookup(WriteFile(g, "b", 0, z), "a") == Some(y[..512] + z)
  {
    var g := WriteFile(d, "a", 0, y);
    GrownOnce(d, x, y);
    NextWriteLandsInGrown(d, "a", 0, y, g, "b", z, 512);
    SecondHalf(y, Lookup(WriteFile(g, "b", 0, z), "a"), z);
  }

  lemma SecondHalf(y: seq<byte>, a: Option<seq<byte>>, z: seq<byte>)
    requires |y| == 1024 && |z| == 512 && LaidOver(Some(y), a, 512, z)
    ensures a == Some(y[..512] + z)
  {
    assert a.value == y[..512] + z;
  }

  /** From a new disk on: whatever is written to b, the second half of a becomes it. */
  lemma GrowthSpoilsOnNewDisk(x: seq<byte>, y: seq<byte>, z: seq<byte>)
    requires |x| == 512 && |y| == 1024 && |z| == 512
    ensures var ops := [CreateFile("a", 0), CreateFile("b", 0), WriteBytes("a", 0, x), WriteBytes("a", 0, y)];
            && Lookup(RunOps(FreshDisk(), ops), "a") == Some(y)
            && Lookup(RunOps(FreshDisk(), ops + [WriteBytes("b", 0, z)]), "a") == Some(y[..512] + z)
  {
    var d := ExecOp(ExecOp(FreshDisk(), CreateFile("a", 0)), CreateFile("b", 0));
    TwoOnNewDisk();
    OneBlockWritten(d, x);
    GrownThenOther(WriteFile(d, "a", 0, x), x, y, z);
    OpsInTurn(FreshDisk(), CreateFile("a", 0), CreateFile("b", 0), WriteBytes("a", 0, x), WriteBytes("a", 0, y));
    var ops := [CreateFile("a", 0), CreateFile("b", 0), WriteBytes("a", 0, x), WriteBytes("a", 0, y)];
    RunOpsSnoc(FreshDisk(), ops, WriteBytes("b", 0, z));
  }

  lemma {:induction false} RunOpsSnoc(d: Disk, ops: seq<DiskOp>, op: DiskOp)
    ensures RunOps(d, ops + [op]) == ExecOp(RunOps(d, ops), op)
    decreases |ops|
  {
    if ops == [] {
      assert [op][1..] == [];
    } else {
      assert (ops + [op])[1..] == ops[1..] + [op];
      RunOpsSnoc(ExecOp(d, ops[0]), ops[1..], op);
    }
  }

  lemma OpsInTurn(d: Disk, a: DiskOp, b: DiskOp, c: DiskOp, e: DiskOp)
    ensures RunOps(d, [a, b, c, e]) == ExecOp(ExecOp(ExecOp(ExecOp(d, a), b), c), e)
  {
    assert [a, b, c, e] == [] + [a] + [b] + [c] + [e];
    RunOpsSnoc(d, [], a);
    RunOpsSnoc(d, [] + [a], b);
    RunOpsSnoc(d, [] + [a] + [b], c);
    RunOpsSnoc(d, [] + [a] + [b] + [c], e);
  }
}
