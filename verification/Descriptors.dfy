/** The descriptor table of src/impl/kernel/fs.c over a RAM disk. */
module Descriptors {
  import opened Memory
  import opened Wrappers
  import opened DiskImage
  import Extents
  import RamDisk

  const MAX_FD: nat := 256

  /** What a descriptor remembers of its file: the name, and the size when it was looked
      up. */
  datatype Node = Node(name: string, size: nat)

  datatype Fd = Fd(node: Option<Node>, offset: nat, flags: nat, refcount: nat)

  const CLOSED: Fd := Fd(None, 0, 0, 0)

  function FreeFd(t: seq<Fd>): (i: nat)
    ensures i <= |t| && (i < |t| ==> t[i].node.None?)
    ensures forall j :: 0 <= j < i ==> t[j].node.Some?
  {
    if t == [] || t[0].node.None? then 0 else 1 + FreeFd(t[1..])
  }

  predicate IsOpen(t: seq<Fd>, fd: int) { 0 <= fd < |t| && t[fd].node.Some? }

  /** The content behind a descriptor. */
  function ContentOf(d: Disk, t: seq<Fd>, fd: int): Option<seq<byte>> {
    if IsOpen(t, fd) then Lookup(d, t[fd].node.value.name) else None
  }

  /** The bytes one read delivers, and the table after it. */
  function Delivered(d: Disk, t: seq<Fd>, fd: int, size: nat): seq<byte> {
    match ContentOf(d, t, fd)
    case None => []
    case Some(content) => ReadSlice(content, t[fd].offset, size)
  }

  function AfterRead(d: Disk, t: seq<Fd>, fd: int, size: nat): seq<Fd> {
    if IsOpen(t, fd)
    then t[fd := t[fd].(offset := t[fd].offset + |Delivered(d, t, fd, size)|)]
    else t
  }

  // ----- any interleaving of reads -----

  datatype Request = Request(fd: int, size: nat)

  /** The bytes the reads on one descriptor deliver, in order. */
  function Stream(d: Disk, t: seq<Fd>, rs: seq<Request>, fd: int): seq<byte>
    decreases |rs|
  {
    if rs == [] then []
    else
      var r := rs[0];
      (if r.fd == fd then Delivered(d, t, fd, r.size) else []) + Stream(d, AfterRead(d, t, r.fd, r.size), rs[1..], fd)
  }

  function Asked(rs: seq<Request>, fd: int): nat {
    if rs == [] then 0 else (if rs[0].fd == fd then rs[0].size else 0) + Asked(rs[1..], fd)
  }

  lemma Slices(c: seq<byte>, i: nat, j: nat, k: nat)
    requires i <= j <= k <= |c|
    ensures c[i..j] + c[j..k] == c[i..k]
  {
  }

  function Upto(c: seq<byte>, k: nat): nat { if k <= |c| then k else |c| }

  lemma SliceForm(c: seq<byte>, offset: nat, n: nat)
    ensures offset <= |c| ==> ReadSlice(c, offset, n) == c[offset..Upto(c, offset + n)]
    ensures offset >= |c| ==> ReadSlice(c, offset, n) == []
  {
    if offset <= |c| {
      assert c[offset..] == c[offset..|c|];
    }
  }

  lemma SliceAfterSlice(c: seq<byte>, offset: nat, a: nat, b: nat)
    ensures var first := ReadSlice(c, offset, a);
            first + ReadSlice(c, offset + |first|, b) == ReadSlice(c, offset, a + b)
  {
    SliceForm(c, offset, a);
    SliceForm(c, offset, a + b);
    if offset < |c| {
      var j := Upto(c, offset + a);
      SliceForm(c, j, b);
      Slices(c, offset, j, Upto(c, offset + a + b));
    } else {
      SliceForm(c, offset, b);
    }
  }

  /** Chunked reading is whole reading: however the reads on a descriptor are sized, and
      whatever reads on others come between, together they deliver what one read of the
      total size would. */
  lemma {:induction false} ChunkedIsWhole(d: Disk, t: seq<Fd>, rs: seq<Request>, fd: int)
    requires ContentOf(d, t, fd).Some?
    ensures Stream(d, t, rs, fd) == ReadSlice(ContentOf(d, t, fd).value, t[fd].offset, Asked(rs, fd))
    decreases |rs|
  {
    var c := ContentOf(d, t, fd).value;
    if rs == [] {
    } else {
      var r := rs[0];
      ChunkedIsWhole(d, AfterRead(d, t, r.fd, r.size), rs[1..], fd);
      if r.fd == fd {
        SliceAfterSlice(c, t[fd].offset, r.size, Asked(rs[1..], fd));
      }
    }
  }

  // ----- the calls -----

  const SEEK_SET: int := 0
  const SEEK_CUR: int := 1
  const SEEK_END: int := 2

  const TWO_63: int := 0x8000_0000_0000_0000
  type int64 = x: int | -0x8000_0000_0000_0000 <= x < 0x8000_0000_0000_0000

  /** A number kept in 64 bits, two's complement. */
  function Signed64(x: int): (r: int64)
  {
    var u := x % TWO_64;
    if u < TWO_63 then u else u - TWO_64
  }

  /** It is the number itself exactly when that fits, and always a multiple of 2^64 away. */
  lemma Signed64Iff(x: int)
    ensures Signed64(x) == x <==> -0x8000_0000_0000_0000 <= x < 0x8000_0000_0000_0000
    ensures (Signed64(x) - x) % 0x1_0000_0000_0000_0000 == 0
  {
  }

  lemma SignedSum(a: int, b: int)
    ensures Signed64(Signed64(a) + b) == Signed64(a + b)
  {
    var q := a / TWO_64;
    if a % TWO_64 < TWO_63 {
      assert a + b == (Signed64(a) + b) + TWO_64 * q;
      SameRemainder(Signed64(a) + b, q);
    } else {
      assert a + b == (Signed64(a) + b) + TWO_64 * (q + 1);
      SameRemainder(Signed64(a) + b, q + 1);
    }
  }

  lemma SameRemainder(a: int, q: int)
    ensures (a + TWO_64 * q) % TWO_64 == a % TWO_64
  {
  }

  /** The result of a seek for byte `sum` of a node: the sum if it fits 64 bits with a sign and lies in
      the node, else -1; a sum that does not fit is taken modulo 2^64. */
  predicate Sought(r: int64, known: bool, sum: int, size: nat) {
    && r == (if known && 0 <= Signed64(sum) <= size then Signed64(sum) else -1)
    && (-0x8000_0000_0000_0000 <= sum < 0x8000_0000_0000_0000 ==>
          r == if known && 0 <= sum <= size then sum else -1)
  }

  lemma SoughtIf(r: int64, known: bool, sum: int, size: nat, target: int64)
    requires known ==> target == Signed64(sum)
    requires r == if known && 0 <= target <= size then target else -1
    ensures Sought(r, known, sum, size)
  {
    Signed64Iff(sum);
  }

  class Vfs {
    const fds: array<Fd>
    const disk: RamDisk.RamDisk

    ghost predicate Valid()
      reads this, disk
    {
      fds.Length == MAX_FD && disk.Valid()
    }

    constructor (disk: RamDisk.RamDisk)
      requires disk.Valid()
      ensures Valid() && this.disk == disk && fresh(fds) && forall i :: 0 <= i < MAX_FD ==> fds[i] == CLOSED
    {
      fds := new Fd[MAX_FD](_ => CLOSED);
      this.disk := disk;
    }

    method FindFreeFd() returns (fd: int)
      requires Valid()
      ensures fd == if FreeFd(fds[..]) < MAX_FD then FreeFd(fds[..]) else -1
      ensures -1 <= fd < 256 && (fd >= 0 ==> fds[fd].node.None?)
      ensures forall j :: 0 <= j < (if fd >= 0 then fd else 256) ==> fds[j].node.Some?
    {
      var i := 0;
      while i < MAX_FD
        invariant i <= MAX_FD && forall j :: 0 <= j < i ==> fds[j].node.Some?
      {
        if fds[i].node.None? {
          return i;
        }
        i := i + 1;
      }
      return -1;
    }

    /** Opens the node a lookup found, on the lowest free descriptor. */
    method Open(node: Option<Node>, flags: nat) returns (fd: int)
      requires Valid()
      modifies fds
      ensures fd == if node.Some? && old(FreeFd(fds[..])) < MAX_FD then old(FreeFd(fds[..])) else -1
      ensures fds[..] == if fd >= 0 then old(fds[..])[fd := Fd(node, 0, flags, 1)] else old(fds[..])
      ensures fd >= 0 ==> !IsOpen(old(fds[..]), fd) && IsOpen(fds[..], fd)
    {
      if node.None? {
        return -1;
      }
      fd := FindFreeFd();
      if fd < 0 {
        return -1;
      }
      fds[fd] := Fd(node, 0, flags, 1);
    }

    method Close(fd: int) returns (r: int)
      requires Valid()
      modifies fds
      ensures r == if 0 <= fd < 256 && old(fds[..])[fd].node.Some? then 0 else -1
      ensures !IsOpen(fds[..], fd)
      ensures fds[..] == if r == 0 then old(fds[..])[fd := CLOSED] else old(fds[..])
    {
      if fd < 0 || fd >= MAX_FD || fds[fd].node.None? {
        return -1;
      }
      fds[fd] := CLOSED;
      return 0;
    }

    /** Delivers the bytes at the descriptor's offset and moves that offset alone. */
    method Read(fd: int, buffer: array<byte>, size: nat) returns (r: int)
      requires Valid() && buffer != disk.data
      requires IsOpen(fds[..], fd) ==> ReadInBounds(disk.State(), fds[fd].node.value.name)
      requires ContentOf(disk.State(), fds[..], fd).Some? && fds[fd].offset < |ContentOf(disk.State(), fds[..], fd).value| ==>
                 fds[fd].offset + size < TWO_64
      requires |Delivered(disk.State(), fds[..], fd, size)| <= buffer.Length
      modifies fds, buffer
      ensures r == if ContentOf(disk.State(), old(fds[..]), fd).Some?
                   then |Delivered(disk.State(), old(fds[..]), fd, size)| else -1
      ensures fds[..] == AfterRead(disk.State(), old(fds[..]), fd, size)
      ensures buffer[..] == StoreAt(old(buffer[..]), 0, Delivered(disk.State(), old(fds[..]), fd, size))
      ensures var c := ContentOf(disk.State(), old(fds[..]), fd);
              c.Some? && old(fds[..])[fd].offset >= |c.value| ==>
                r == 0 && fds[..] == old(fds[..]) && buffer[..] == old(buffer[..])
    {
      if fd < 0 || fd >= MAX_FD || fds[fd].node.None? {
        return -1;
      }
      r := disk.Read(fds[fd].node.value.name, fds[fd].offset, size, buffer);
      if r > 0 {
        fds[fd] := fds[fd].(offset := fds[fd].offset + r);
      }
    }

    /** Writes at the descriptor's offset and moves that offset alone. */
    method Write(fd: int, buffer: array<byte>, size: nat) returns (r: int)
      requires Valid() && buffer != disk.data && size <= buffer.Length
      requires IsOpen(fds[..], fd) ==>
                 && fds[fd].offset + size < TWO_64
                 && WriteInBounds(disk.State(), fds[fd].node.value.name, fds[fd].offset, size)
      modifies fds, disk, disk.data, disk.files
      ensures !IsOpen(old(fds[..]), fd) ==> r == -1 && disk.State() == old(disk.State()) && fds[..] == old(fds[..])
      ensures IsOpen(old(fds[..]), fd) ==>
                var f := old(fds[..])[fd];
                var ok := Extents.CanWrite(old(disk.State()).m, f.node.value.name, f.offset + size);
                && r == (if ok then size else -1)
                && disk.State() == WriteFile(old(disk.State()), f.node.value.name, f.offset, old(buffer[..size]))
                && fds[..] == if ok then old(fds[..])[fd := f.(offset := f.offset + size)] else old(fds[..])
    {
      if fd < 0 || fd >= MAX_FD || fds[fd].node.None? {
        return -1;
      }
      r := disk.Write(fds[fd].node.value.name, fds[fd].offset, size, buffer);
      if r > 0 {
        fds[fd] := fds[fd].(offset := fds[fd].offset + r);
      }
    }

    /** Moves within the size the file had when it was looked up. */
    method Seek(fd: int, offset: int64, whence: int) returns (r: int64)
      requires Valid()
      modifies fds
      ensures !IsOpen(old(fds[..]), fd) ==> r == -1
      ensures IsOpen(old(fds[..]), fd) ==>
                var f := old(fds[..])[fd];
                var sum := offset + (if whence == 0 then 0 else if whence == 1 then f.offset else f.node.value.size);
                Sought(r, 0 <= whence <= 2, sum, f.node.value.size)
      ensures fds[..] == if r >= 0 then old(fds[..])[fd := old(fds[..])[fd].(offset := r)] else old(fds[..])
    {
      if fd < 0 || fd >= MAX_FD || fds[fd].node.None? {
        return -1;
      }
      var newOffset := Signed64(fds[fd].offset);
      ghost var size := fds[fd].node.value.size;
      ghost var sum := offset + (if whence == 0 then 0 else if whence == 1 then fds[fd].offset else size);
      if whence == SEEK_SET {
        Signed64Iff(offset);
        newOffset := offset;
      } else if whence == SEEK_CUR {
        SignedSum(fds[fd].offset, offset);
        newOffset := Signed64(newOffset + offset);
      } else if whence == SEEK_END {
        SignedSum(fds[fd].node.value.size, offset);
        newOffset := Signed64(Signed64(fds[fd].node.value.size) + offset);
      } else {
        SoughtIf(-1, false, sum, size, newOffset);
        return -1;
      }
      SoughtIf(if 0 <= newOffset <= size then newOffset else -1, true, sum, size, newOffset);
      if newOffset < 0 || newOffset > fds[fd].node.value.size {
        return -1;
      }
      fds[fd] := fds[fd].(offset := newOffset);
      return newOffset;
    }
  }
}
