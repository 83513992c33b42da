/** The RAM disk of src/impl/kernel/ramdisk.c as its file table, its two counters and its
    bytes, each call proved against Extents and DiskImage. */
module RamDisk {
  import opened Memory
  import opened Extents
  import opened DiskImage
  import opened Wrappers

  class RamDisk {
    const data: array<byte>
    const files: array<File>
    var freeBlockStart: uint32
    var freeBlocks: nat

    ghost function State(): Disk
      reads this, data, files
    {
      Disk(Meta(files[..], freeBlockStart, freeBlocks), data[..])
    }

    ghost predicate Valid()
      reads this
    {
      data.Length == SIZE && files.Length == MAX_FILES
    }

    constructor ()
      ensures Valid() && State() == FreshDisk() && fresh(data) && fresh(files)
    {
      data := new byte[SIZE](_ => 0);
      files := new File[MAX_FILES](_ => CLEARED);
      freeBlockStart := 0;
      freeBlocks := SIZE / BLOCK;
      new;
      assert data[..] == Zeros(SIZE);
      assert files[..] == FreshDisk().m.files;
    }

    method FindFreeFile() returns (i: nat)
      requires Valid()
      ensures i == FreeSlot(files[..])
    {
      i := 0;
      while i < MAX_FILES && files[i].inUse
        invariant i <= MAX_FILES && forall j :: 0 <= j < i ==> files[j].inUse
      {
        i := i + 1;
      }
    }

    method FindFileByName(name: string) returns (i: nat)
      requires Valid()
      ensures i == Find(files[..], name)
    {
      i := 0;
      while i < MAX_FILES && !(files[i].inUse && files[i].name == name)
        invariant i <= MAX_FILES && forall j :: 0 <= j < i ==> !Holds(files[j], name)
      {
        i := i + 1;
      }
    }

    method AllocateBlocks(count: nat) returns (ok: bool, start: nat)
      modifies this`freeBlockStart, this`freeBlocks
      ensures ok <==> count <= old(freeBlocks)
      ensures ok ==> start == old(freeBlockStart) && freeBlockStart == (start + count) % TWO_32
                     && freeBlocks == old(freeBlocks) - count
      ensures !ok ==> freeBlockStart == old(freeBlockStart) && freeBlocks == old(freeBlocks)
    {
      start := 0;
      if count > freeBlocks {
        return false, start;
      }
      start := freeBlockStart;
      freeBlockStart := (freeBlockStart + count) % TWO_32;
      freeBlocks := freeBlocks - count;
      ok := true;
    }

    method CreateFile(name: string, flags: nat) returns (r: int)
      requires Valid()
      modifies files
      ensures State() == old(State()).(m := Create(old(State().m), name, flags))
      ensures r == if old(CanCreate(State().m, name)) then 0 else -1
    {
      if |name| >= NAME_LEN {
        return -1;
      }
      var found := FindFileByName(name);
      if found < MAX_FILES {
        return -1;
      }
      var i := FindFreeFile();
      if i == MAX_FILES {
        return -1;
      }
      files[i] := File(name, flags, 0, 0, 0, true);
      return 0;
    }

    method DeleteFile(name: string) returns (r: int)
      requires Valid()
      modifies files, this`freeBlocks
      ensures State() == old(State()).(m := Delete(old(State().m), name))
      ensures r == if old(Exists(State().m, name)) then 0 else -1
    {
      var i := FindFileByName(name);
      if i == MAX_FILES {
        return -1;
      }
      freeBlocks := freeBlocks + files[i].count;
      files[i] := CLEARED;
      return 0;
    }

    /** Delivers the slice of the file the request covers, into the start of buffer. */
    method Read(name: string, offset: nat, size: nat, buffer: array<byte>) returns (r: int)
      requires Valid() && ReadInBounds(State(), name) && buffer != data
      requires Lookup(State(), name).Some? && offset < |Lookup(State(), name).value| ==> offset + size < TWO_64
      requires Lookup(State(), name).Some? ==>
                 |ReadSlice(Lookup(State(), name).value, offset, size)| <= buffer.Length
      modifies buffer
      ensures match Lookup(State(), name)
              case None => r == -1 && buffer[..] == old(buffer[..])
              case Some(content) =>
                var slice := ReadSlice(content, offset, size);
                r == |slice| <= buffer.Length && buffer[..] == StoreAt(old(buffer[..]), 0, slice)
    {
      var i := FindFileByName(name);
      if i == MAX_FILES {
        return -1;
      }
      r := ReadEntry(files[i], offset, size, buffer);
    }

    method ReadEntry(f: File, offset: nat, size: nat, buffer: array<byte>) returns (r: int)
      requires FirstByte(f) + f.size <= data.Length && buffer != data
      requires |ReadSlice(Content(data[..], f), offset, size)| <= buffer.Length
      modifies buffer
      ensures r == |ReadSlice(Content(data[..], f), offset, size)|
      ensures buffer[..] == StoreAt(old(buffer[..]), 0, ReadSlice(Content(data[..], f), offset, size))
    {
      ghost var slice := ReadSlice(Content(data[..], f), offset, size);
      if offset >= f.size {
        StoreNothing(buffer[..]);
        return 0;
      }
      var readSize := size;
      if offset + size > f.size {
        readSize := f.size - offset;
      }
      var src := f.start * BLOCK + offset;
      SliceOfContent(data[..], f, offset, size);
      assert slice == data[src..src + readSize];
      CopyInto(buffer, 0, data, src, readSize);
      return readSize;
    }

    /** Writes the first size bytes of buffer. */
    method Write(name: string, offset: nat, size: nat, buffer: array<byte>) returns (r: int)
      requires Valid() && size <= buffer.Length && buffer != data && offset + size < TWO_64
      requires WriteInBounds(State(), name, offset, size)
      modifies data, files, this`freeBlockStart, this`freeBlocks
      ensures State() == WriteFile(old(State()), name, offset, old(buffer[..size]))
      ensures r == if old(CanWrite(State().m, name, offset + size)) then size else -1
    {
      var i := FindFileByName(name);
      if i == MAX_FILES {
        return -1;
      }
      var ok := WriteEntry(i, offset, size, buffer);
      return if ok then size else -1;
    }

    method WriteEntry(i: nat, offset: nat, size: nat, buffer: array<byte>) returns (ok: bool)
      requires Valid() && i < MAX_FILES && size <= buffer.Length && buffer != data
      requires Fitting(files[i], offset + size, freeBlocks) ==>
                 StoresInBounds(files[i], freeBlockStart, offset, size, SIZE)
      modifies data, files, this`freeBlockStart, this`freeBlocks
      ensures ok == Fitting(old(files[i]), offset + size, old(freeBlocks))
      ensures !ok ==> State() == old(State())
      ensures ok ==> State() == WriteSlot(old(State()), i, offset, old(buffer[..size]))
    {
      ghost var d, bytes := State(), buffer[..size];
      ok := Reserve(i, offset + size);
      if ok {
        ghost var reserved := ReserveSlot(d, i, offset + size);
        assert State() == reserved && buffer[..size] == bytes;
        ReservedRoom(d, i, offset, size);
        Fill(i, offset, size, buffer);
        assert State() == FillSlot(reserved, i, offset, bytes);
        WriteIsReserveAndFill(d, i, offset, bytes);
      }
    }

    /** The part of ramdisk_write that stores the bytes. */
    method Fill(i: nat, offset: nat, size: nat, buffer: array<byte>)
      requires Valid() && i < MAX_FILES && size <= buffer.Length && buffer != data
      requires FirstByte(State().m.files[i]) + offset + size <= SIZE
      modifies data, files
      ensures State() == FillSlot(old(State()), i, offset, old(buffer[..size]))
    {
      ghost var f := files[i];
      assert buffer[0..0 + size] == buffer[..size];
      CopyInto(data, files[i].start * BLOCK + offset, buffer, 0, size);
      if offset + size > files[i].size {
        files[i] := files[i].(size := (offset + size) % TWO_32);
      }
      assert files[..] == old(files[..])[i := Sized(f, offset + size)];
    }

    /** The part of ramdisk_write that finds blocks for a write up to byte end. */
    method Reserve(i: nat, end: nat) returns (ok: bool)
      requires Valid() && i < MAX_FILES
      requires Fitting(files[i], end, freeBlocks) ==> MoveInBounds(files[i], freeBlockStart, end, SIZE)
      modifies data, files, this`freeBlockStart, this`freeBlocks
      ensures ok == Fitting(old(files[i]), end, old(freeBlocks))
      ensures !ok ==> State() == old(State())
      ensures ok ==> State() == ReserveSlot(old(State()), i, end)
    {
      var f := files[i];
      var required := (end + BLOCK - 1) % TWO_64 / BLOCK % TWO_32;
      ok := true;
      if required > f.count {
        var newStart: nat;
        ok, newStart := AllocateBlocks(required - f.count);
        if !ok {
          return;
        }
        if f.count > 0 {
          MemCpy(data, newStart * BLOCK, data, f.start * BLOCK, f.size);
        }
        files[i] := f.(start := newStart, count := required);
      }
    }
  }

  lemma SubSlice(s: seq<byte>, a: nat, b: nat, i: nat, j: nat)
    requires a <= b <= |s| && i <= j <= b - a
    ensures s[a..b][i..j] == s[a + i..a + j]
  {
    var x, y := s[a..b][i..j], s[a + i..a + j];
    forall k | 0 <= k < j - i
      ensures x[k] == y[k]
    {
      assert x[k] == s[a..b][i + k] == s[a + (i + k)];
      assert y[k] == s[(a + i) + k];
    }
  }

  /** A slice of a file is a stretch of the disk. */
  lemma SliceOfContent(data: seq<byte>, f: File, offset: nat, size: nat)
    requires FirstByte(f) + f.size <= |data| && offset < f.size
    ensures var n := if offset + size > f.size then f.size - offset else size;
            ReadSlice(Content(data, f), offset, size) == data[FirstByte(f) + offset..FirstByte(f) + offset + n]
  {
    var content := Content(data, f);
    assert content == data[FirstByte(f)..FirstByte(f) + f.size];
    var n := if offset + size > f.size then f.size - offset else size;
    SubSlice(data, FirstByte(f), FirstByte(f) + f.size, offset, offset + n);
    assert offset + size > f.size ==> content[offset..] == content[offset..offset + n];
  }

  /** Once blocks are found the bytes have their place on the disk. */
  lemma ReservedRoom(d: Disk, i: nat, offset: nat, size: nat)
    requires i < |d.m.files| && Fitting(d.m.files[i], offset + size, d.m.freeBlocks)
    requires StoresInBounds(d.m.files[i], d.m.freeStart, offset, size, SIZE)
    ensures FirstByte(ReserveSlot(d, i, offset + size).m.files[i]) + offset + size <= SIZE
  {
  }

  lemma StoreNothing(mem: seq<byte>)
    ensures StoreAt(mem, 0, []) == mem
  {
  }

  method CopyInto(dest: array<byte>, d: nat, src: array<byte>, s: nat, n: nat)
    requires d + n <= dest.Length && s + n <= src.Length && dest != src
    modifies dest
    ensures dest[..] == StoreAt(old(dest[..]), d, src[s..s + n])
  {
    MemCpy(dest, d, src, s, n);
  }
}
