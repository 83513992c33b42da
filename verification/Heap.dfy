/** malloc, free, calloc and realloc of src/impl/kernel/stdlib.c over the bytes of
    physical memory, each proved against the block sequence of Blocks. */
module Heap {
  import opened Arithmetic
  import opened Memory
  import opened Blocks
  import opened Headers
  import Mmu

  /** `(size + 7) & ~7` */
  function Align(size: uint64): uint64 {
    var s := (size + 7) % TWO_64;
    s - s % 8
  }

  /** Rounding up gives at least the size exactly when adding 7 does not wrap. */
  lemma AlignIff(size: uint64)
    ensures Align(size) >= size <==> size <= TWO_64 - 8
    ensures size <= TWO_64 - 8 ==> Align(size) < size + 8
    ensures Align(size) % 8 == 0
  {
  }

  /** The test and the target of split_block, on 64 bits. */
  predicate SplitTest(size: uint64, n: uint64) { size >= (n + HEADER + 32) % TWO_64 }

  function SplitTarget(block: uint64, n: uint64): uint64 { (block + HEADER + n) % TWO_64 }

  /** The block split_block makes lies inside the payload of the block it splits, unless the
      size is so near 2^64 that the sum in the test wraps and the test succeeds all the same. */
  lemma SplitInsideIff(block: uint64, size: uint64, n: uint64)
    requires PAGE <= block && block + HEADER + size < TWO_64
    ensures (SplitTest(size, n) ==>
              block + HEADER <= SplitTarget(block, n) && SplitTarget(block, n) + HEADER <= block + HEADER + size)
       <==> n + HEADER + 32 < TWO_64 || !SplitTest(size, n)
  {
    if n + HEADER + 32 >= TWO_64 {
      Wrapped(n + HEADER + 32);
      Wrapped(block + HEADER + n);
    } else if SplitTest(size, n) {
      Unwrapped(n + HEADER + 32);
      Unwrapped(block + HEADER + n);
    }
  }

  lemma Wrapped(x: nat)
    requires TWO_64 <= x < 2 * TWO_64
    ensures x % TWO_64 == x - TWO_64
  {
  }

  lemma Unwrapped(x: nat)
    requires x < TWO_64
    ensures x % TWO_64 == x
  {
  }

  /** k is a payload byte of a live block. */
  ghost predicate LiveByte(bs: seq<Block>, k: int) {
    exists b {:trigger b in Live(bs)} :: b in Live(bs) && b.addr + HEADER <= k < End(b)
  }

  ghost predicate LiveBytesKept(bs: seq<Block>, mem: seq<byte>, mem': seq<byte>) {
    |mem'| == |mem| &&
    forall k {:trigger LiveByte(bs, k)} :: 0 <= k < |mem| && LiveByte(bs, k) ==> mem'[k] == mem[k]
  }

  lemma BlockInList(mem: seq<byte>, bs: seq<Block>, i: nat)
    requires Listed(mem, bs) && i < |bs|
    ensures bs[i].addr > 0 && HeaderIs(mem, bs[i], AddrAt(bs, i + 1))
  {
    assert HeadersIn(mem)(bs[i], LinkOf(bs, i));
  }

  lemma SizeInHeader(mem: seq<byte>, bs: seq<Block>, base: nat, brk: nat, b: Block)
    requires Listed(mem, bs) && Tiled(bs, base, brk) && brk <= |mem| && b in bs
    ensures b.addr + HEADER <= End(b) <= brk && Read64(mem, b.addr) == b.size
  {
    TiledIsOrdered(bs, base, brk);
    BlockInList(mem, bs, IndexOf(bs, b));
  }

  /** Two headers written inside block i split it. */
  lemma SplitInMemory(mem: seq<byte>, mem': seq<byte>, bs: seq<Block>, i: nat, n: nat)
    requires Listed(mem, bs) && Ordered(bs) && i < |bs| && Splits(bs[i], n) && |mem'| == |mem|
    requires forall k :: 0 <= k < |mem| && !(bs[i].addr <= k < End(bs[i])) ==> mem'[k] == mem[k]
    requires HeaderIs(mem', bs[i].(size := n), Rest(bs[i], n).addr)
    requires HeaderIs(mem', Rest(bs[i], n), AddrAt(bs, i + 1))
    ensures Listed(mem', Split(bs, i, n))
  {
    BlockInList(mem, bs, i);
    OthersKept(mem, mem', bs, i);
    LinkedOfSplit(HeadersIn(mem'), bs, i, n);
  }

  /** Live bytes lie below the break and in no header. */
  lemma LiveBytesInPayloads(bs: seq<Block>, base: nat, brk: nat)
    requires Tiled(bs, base, brk)
    ensures forall k :: LiveByte(bs, k) ==> k < brk
    ensures forall k, j :: 0 <= j < |bs| && LiveByte(bs, k) ==> !(bs[j].addr <= k < bs[j].addr + HEADER)
  {
    forall k, j | 0 <= j < |bs| && LiveByte(bs, k)
      ensures k < brk && !(bs[j].addr <= k < bs[j].addr + HEADER)
    {
      var b :| b in Live(bs) && b.addr + HEADER <= k < End(b);
      TiledIsOrdered(bs, base, brk);
      if b != bs[j] {
        PayloadsDisjoint(bs, base, brk, b, bs[j], k);
      }
    }
  }

  lemma LiveByteNotInFree(bs: seq<Block>, i: nat, k: int)
    requires Ordered(bs) && i < |bs| && bs[i].free && LiveByte(bs, k)
    ensures !(bs[i].addr <= k < End(bs[i]))
  {
    var b :| b in Live(bs) && b.addr + HEADER <= k < End(b);
    var j :| 0 <= j < |bs| && bs[j] == b;
  }

  /** A store to the header of block i that changes its flag only. */
  lemma MarkInMemory(mem: seq<byte>, mem': seq<byte>, bs: seq<Block>, i: nat, f: bool)
    requires Listed(mem, bs) && Ordered(bs) && i < |bs| && OnlyHeader(mem, mem', bs[i].addr)
    requires HeaderIs(mem', bs[i].(free := f), AddrAt(bs, i + 1))
    ensures Listed(mem', bs[i := bs[i].(free := f)])
  {
    BlockInList(mem, bs, i);
    OthersKept(mem, mem', bs, i);
    LinkedOfMark(HeadersIn(mem'), bs, i, f);
  }

  lemma MergeInMemory(mem: seq<byte>, mem': seq<byte>, bs: seq<Block>, i: nat)
    requires Listed(mem, bs) && Ordered(bs) && i < |bs| && Merges(bs, i) && OnlyHeader(mem, mem', bs[i].addr)
    requires HeaderIs(mem', Free(bs, i)[i], AddrAt(bs, i + 2))
    ensures Listed(mem', Free(bs, i))
  {
    BlockInList(mem, bs, i);
    OthersKept(mem, mem', bs, i);
    LinkedOfMerge(HeadersIn(mem'), bs, i);
  }

  /** Stores that touch no header leave the list alone. */
  lemma PayloadWritten(mem: seq<byte>, mem': seq<byte>, bs: seq<Block>)
    requires Listed(mem, bs) && HeadersElse(mem, mem', bs, |bs|)
    ensures Listed(mem', bs)
  {
    OthersKept(mem, mem', bs, |bs|);
  }

  lemma FreeIsMarkAndMerge(bs: seq<Block>, i: nat)
    requires i < |bs|
    ensures var m := bs[i := bs[i].(free := true)];
            && (Merges(m, i) <==> Merges(bs, i))
            && Blocks.Free(bs, i) == (if Merges(m, i) then Blocks.Free(m, i) else m)
            && AddrAt(Blocks.Free(bs, i), 0) == AddrAt(bs, 0)
  {
  }

  ghost predicate NoHeader(bs: seq<Block>, k: int) {
    forall j :: 0 <= j < |bs| ==> !(bs[j].addr <= k < bs[j].addr + HEADER)
  }

  /** k is a payload byte of a live block other than b. */
  ghost predicate OtherLiveByte(bs: seq<Block>, b: Block, k: int) {
    exists c {:trigger c in Live(bs)} :: c in Live(bs) && c != b && c.addr + HEADER <= k < End(c)
  }

  ghost predicate OtherBytesKept(bs: seq<Block>, b: Block, mem: seq<byte>, mem': seq<byte>) {
    |mem'| == |mem| &&
    forall k {:trigger OtherLiveByte(bs, b, k)} :: 0 <= k < |mem| && OtherLiveByte(bs, b, k) ==> mem'[k] == mem[k]
  }

  lemma OtherBytesOutside(bs: seq<Block>, base: nat, brk: nat, b: Block)
    requires Tiled(bs, base, brk) && b in bs
    ensures forall k :: OtherLiveByte(bs, b, k) ==> !(b.addr <= k < End(b))
  {
    forall k | OtherLiveByte(bs, b, k)
      ensures !(b.addr <= k < End(b))
    {
      var c :| c in Live(bs) && c != b && c.addr + HEADER <= k < End(c);
      PayloadsDisjoint(bs, base, brk, c, b, k);
    }
  }

  /** A live block before malloc is a block after it, apart from the new one. */
  lemma KeptByMalloc(bs: seq<Block>, base: nat, brk: nat, n: nat, b: Block)
    requires Tiled(bs, base, brk) && b in Live(bs)
    ensures var t, bs', brk' := Taken(bs, brk, n), Blocks.Malloc(bs, brk, n), TopAfter(bs, brk, n);
            && Tiled(bs', base, brk') && b in bs' && t in bs' && t != b && t.size >= n
            && End(t) <= brk' && End(b) <= brk'
            && (End(b) <= t.addr || End(t) <= b.addr)
  {
    var bs', brk' := Blocks.Malloc(bs, brk, n), TopAfter(bs, brk, n);
    MallocTiledTo(bs, base, brk, n);
    MallocLive(bs, base, brk, n);
    assert b in Live(bs') && Taken(bs, brk, n) in Live(bs');
    TiledIsOrdered(bs', base, brk');
  }

  lemma LiveSliceKept(bs: seq<Block>, mem: seq<byte>, mem': seq<byte>, b: Block)
    requires LiveBytesKept(bs, mem, mem') && b in Live(bs) && End(b) <= |mem|
    ensures forall k :: b.addr + HEADER <= k < End(b) ==> mem'[k] == mem[k]
  {
    forall k | b.addr + HEADER <= k < End(b)
      ensures mem'[k] == mem[k]
    {
      assert LiveByte(bs, k);
    }
  }

  /** The n bytes at a' in one memory are the n bytes at a in another. */
  ghost predicate Copied(mem': seq<byte>, a': nat, mem: seq<byte>, a: nat, n: nat) {
    a' + n <= |mem'| && a + n <= |mem| && mem'[a'..a' + n] == mem[a..a + n]
  }

  /** A copy out of block b copies what b held before its bytes were kept. */
  lemma CopiedOfKept(mem': seq<byte>, a': nat, mem: seq<byte>, mem0: seq<byte>, bs: seq<Block>, b: Block)
    requires Copied(mem', a', mem, b.addr + HEADER, b.size)
    requires LiveBytesKept(bs, mem0, mem) && b in Live(bs)
    ensures Copied(mem', a', mem0, b.addr + HEADER, b.size)
  {
    LiveSliceKept(bs, mem0, mem, b);
    assert mem0[b.addr + HEADER..End(b)] == mem[b.addr + HEADER..End(b)];
  }

  /** A copy in block t stays while the bytes of t are kept. */
  lemma CopiedAndKept(mem2: seq<byte>, mem1: seq<byte>, mem0: seq<byte>, bs: seq<Block>, t: Block, a: nat, n: nat)
    requires Copied(mem1, t.addr + HEADER, mem0, a, n) && n <= t.size && End(t) <= |mem1|
    requires LiveBytesKept(bs, mem1, mem2) && t in Live(bs)
    ensures Copied(mem2, t.addr + HEADER, mem0, a, n)
  {
    LiveSliceKept(bs, mem1, mem2, t);
    var p := t.addr + HEADER;
    assert mem2[p..p + n] == mem1[p..p + n];
  }

  lemma OtherIsLive(bs: seq<Block>, b: Block)
    ensures forall k :: OtherLiveByte(bs, b, k) ==> LiveByte(bs, k)
  {
  }

  lemma LiveSubset(bs: seq<Block>, bs': seq<Block>)
    requires Live(bs) <= Live(bs')
    ensures forall k :: LiveByte(bs, k) ==> LiveByte(bs', k)
  {
  }

  /** Block b of the list has been freed. */
  ghost predicate Freed(bs: seq<Block>, b: Block, bs': seq<Block>) {
    b in bs && bs' == Blocks.Free(bs, IndexOf(bs, b))
  }

  /** A block for n bytes has been taken, and then b freed. */
  ghost predicate Moved(bs: seq<Block>, brk: nat, n: nat, b: Block, bs': seq<Block>, ptr': nat) {
    Freed(Blocks.Malloc(bs, brk, n), b, bs') && ptr' == Taken(bs, brk, n).addr + HEADER
  }

  /** What realloc does to the list, and the pointer it returns. */
  ghost predicate Reallocated(bs: seq<Block>, brk: nat, ptr: nat, size: uint64, b: Block, bs': seq<Block>, ptr': nat) {
    if size == 0 then ptr' == 0 && if ptr == 0 then bs' == bs else Freed(bs, b, bs')
    else if ptr == 0 then bs' == Blocks.Malloc(bs, brk, Align(size)) && ptr' == Taken(bs, brk, Align(size)).addr + HEADER
    else if b.size >= size then b in bs && bs' == Split(bs, IndexOf(bs, b), size) && ptr' == ptr
    else Moved(bs, brk, Align(size), b, bs', ptr')
  }

  /** A payload byte of block t lies in the heap, in no header, and in no payload of
      another block. */
  lemma PayloadByte(bs: seq<Block>, base: nat, brk: nat, t: Block, k: int)
    requires Tiled(bs, base, brk) && t in bs && t.addr + HEADER <= k < End(t)
    ensures k < brk
    ensures NoHeader(bs, k)
    ensures forall c :: c in bs && c != t ==> !(c.addr <= k < End(c))
  {
    TiledIsOrdered(bs, base, brk);
    forall c | c in bs && c != t
      ensures !(c.addr <= k < End(c))
    {
      PayloadsDisjoint(bs, base, brk, t, c, k);
    }
  }

  /** Stores into the payload of block t touch no header and no other live payload. */
  lemma PayloadStored(mem: seq<byte>, mem': seq<byte>, bs: seq<Block>, base: nat, brk: nat, t: Block)
    requires Tiled(bs, base, brk) && t in bs && Listed(mem, bs) && |mem'| == |mem|
    requires forall k :: 0 <= k < |mem| && !(t.addr + HEADER <= k < End(t)) ==> mem'[k] == mem[k]
    ensures Listed(mem', bs) && OtherBytesKept(bs, t, mem, mem')
  {
    forall j, k | 0 <= j < |bs| && bs[j].addr <= k < bs[j].addr + HEADER && k < |mem|
      ensures mem'[k] == mem[k]
    {
      if t.addr + HEADER <= k < End(t) {
        PayloadByte(bs, base, brk, t, k);
        assert false;
      }
    }
    PayloadWritten(mem, mem', bs);
    OtherBytesOutside(bs, base, brk, t);
  }

  /** What was live before malloc is another block's after it. */
  lemma LiveIsOtherAfterMalloc(bs: seq<Block>, base: nat, brk: nat, n: nat)
    requires Tiled(bs, base, brk)
    ensures forall k :: LiveByte(bs, k) ==> OtherLiveByte(Blocks.Malloc(bs, brk, n), Taken(bs, brk, n), k)
  {
    MallocLive(bs, base, brk, n);
    var bs', t := Blocks.Malloc(bs, brk, n), Taken(bs, brk, n);
    forall k | LiveByte(bs, k)
      ensures OtherLiveByte(bs', t, k)
    {
      var c :| c in Live(bs) && c.addr + HEADER <= k < End(c);
      assert c in Live(bs') && c != t;
    }
  }

  /** The block malloc hands out. */
  lemma TakenInHeap(bs: seq<Block>, base: nat, brk: nat, n: nat)
    requires Tiled(bs, base, brk)
    ensures var t, bs', brk' := Taken(bs, brk, n), Blocks.Malloc(bs, brk, n), TopAfter(bs, brk, n);
            Tiled(bs', base, brk') && t in Live(bs') && t.size >= n && End(t) <= brk'
  {
    MallocTiledTo(bs, base, brk, n);
    MallocLive(bs, base, brk, n);
    TiledIsOrdered(Blocks.Malloc(bs, brk, n), base, TopAfter(bs, brk, n));
  }

  /** Stores into the payload malloc just handed out keep what was live before. */
  lemma FreshWritten(mem0: seq<byte>, mem: seq<byte>, mem': seq<byte>, bs: seq<Block>, base: nat, brk: nat, n: nat)
    requires Tiled(bs, base, brk)
    requires LiveBytesKept(bs, mem0, mem) && Listed(mem, Blocks.Malloc(bs, brk, n)) && |mem'| == |mem|
    requires var t := Taken(bs, brk, n);
             forall k :: 0 <= k < |mem| && !(t.addr + HEADER <= k < End(t)) ==> mem'[k] == mem[k]
    ensures Listed(mem', Blocks.Malloc(bs, brk, n)) && LiveBytesKept(bs, mem0, mem')
  {
    var bs', t := Blocks.Malloc(bs, brk, n), Taken(bs, brk, n);
    TakenInHeap(bs, base, brk, n);
    LiveIsOtherAfterMalloc(bs, base, brk, n);
    PayloadStored(mem, mem', bs', base, TopAfter(bs, brk, n), t);
    forall k | 0 <= k < |mem| && LiveByte(bs, k)
      ensures mem'[k] == mem0[k]
    {
      assert OtherLiveByte(bs', t, k);
    }
  }

  /** Block t is what malloc made of bs, and leaves live block b where it was. */
  ghost predicate Beside(bs: seq<Block>, bs': seq<Block>, brk: nat, n: nat, b: Block, t: Block, end: nat) {
    && bs' == Blocks.Malloc(bs, brk, n) && t == Taken(bs, brk, n)
    && b in bs' && t in Live(bs') && Live(bs) <= Live(bs')
    && b.size <= t.size && End(t) <= end && (End(b) <= t.addr || End(t) <= b.addr)
  }

  /** Freeing b after that is moving it; the bytes of every block live before, and the copy, are kept. */
  lemma FreedBeside(bs: seq<Block>, bs1: seq<Block>, bs2: seq<Block>, brk: nat, n: nat, b: Block, t: Block,
                    ptr: nat, ptr': nat, mem0: seq<byte>, mem1: seq<byte>, mem2: seq<byte>)
    requires Beside(bs, bs1, brk, n, b, t, |mem1|) && Freed(bs1, b, bs2)
    requires LiveBytesKept(bs, mem0, mem1) && LiveBytesKept(bs1, mem1, mem2)
    requires ptr == b.addr + HEADER && ptr' == t.addr + HEADER && Copied(mem1, ptr', mem0, ptr, b.size)
    ensures Moved(bs, brk, n, b, bs2, ptr')
    ensures LiveBytesKept(bs, mem0, mem2)
    ensures Copied(mem2, ptr', mem0, ptr, b.size)
  {
    LiveSubset(bs, bs1);
    CopiedAndKept(mem2, mem1, mem0, bs1, t, ptr, b.size);
  }

  /** ... and bytes copied there from live block b are its bytes from before malloc. */
  lemma CopiedOut(mem0: seq<byte>, mem: seq<byte>, mem': seq<byte>, bs: seq<Block>, base: nat, brk: nat, n: nat,
                  b: Block, t: Block, ptr: nat, ptr': nat)
    requires Tiled(bs, base, brk) && b in Live(bs)
    requires t == Taken(bs, brk, n) && ptr == b.addr + HEADER && ptr' == t.addr + HEADER
    requires LiveBytesKept(bs, mem0, mem) && OtherBytesKept(Blocks.Malloc(bs, brk, n), t, mem, mem')
    requires Copied(mem', ptr', mem, ptr, b.size)
    ensures LiveBytesKept(bs, mem0, mem') && Copied(mem', ptr', mem0, ptr, b.size)
  {
    CopiedOfKept(mem', ptr', mem, mem0, bs, b);
    LiveIsOtherAfterMalloc(bs, base, brk, n);
    forall k | 0 <= k < |mem| && LiveByte(bs, k)
      ensures mem'[k] == mem0[k]
    {
      assert OtherLiveByte(Blocks.Malloc(bs, brk, n), t, k);
    }
  }

  /** A header written past the heap, and the old last link set to it, extend the list. */
  lemma AppendInMemory(mem: seq<byte>, mem': seq<byte>, bs: seq<Block>, b: Block)
    requires Listed(mem, bs) && Ordered(bs) && |mem'| == |mem| && b.addr > 0
    requires forall j :: 0 <= j < |bs| ==> End(bs[j]) <= b.addr
    requires forall k :: 0 <= k < |mem| && k < b.addr && !(bs != [] && bs[|bs| - 1].addr <= k < bs[|bs| - 1].addr + HEADER)
               ==> mem'[k] == mem[k]
    requires bs != [] ==> HeaderIs(mem', bs[|bs| - 1], b.addr)
    requires HeaderIs(mem', b, 0)
    ensures Listed(mem', bs + [b]) && Ordered(bs + [b])
  {
    if bs != [] {
      BlockInList(mem, bs, |bs| - 1);
    }
    OthersKept(mem, mem', bs, if bs == [] then 0 else |bs| - 1);
    LinkedOfAppend(HeadersIn(mem'), bs, b);
  }

  /** A page taken behind the heap leaves the last header alone. */
  lemma TailKept(mem: seq<byte>, mem': seq<byte>, bs: seq<Block>, base: nat, brk: nat)
    requires Listed(mem, bs) && Tiled(bs, base, brk) && bs != [] && |mem'| == |mem|
    requires forall k :: 0 <= k < |mem| && !(brk <= k < brk + PAGE) ==> mem'[k] == mem[k]
    ensures HeaderIs(mem', bs[|bs| - 1], 0)
  {
    TiledIsOrdered(bs, base, brk);
    BlockInList(mem, bs, |bs| - 1);
    HeaderKept(mem, mem', bs[|bs| - 1], 0);
  }

  /** Such a page, given a header and linked from the last block, extends the list. */
  lemma LinkedInMemory(mem: seq<byte>, mem1: seq<byte>, mem2: seq<byte>, bs: seq<Block>, base: nat, brk: nat, n: nat)
    requires Listed(mem, bs) && Tiled(bs, base, brk) && bs != [] && brk > 0 && |mem1| == |mem|
    requires forall k :: 0 <= k < |mem| && !(brk <= k < brk + PAGE) ==> mem1[k] == mem[k]
    requires HeaderIs(mem1, FreshBlock(brk, n), 0)
    requires HeaderIs(mem2, bs[|bs| - 1], brk) && OnlyHeader(mem1, mem2, bs[|bs| - 1].addr)
    ensures Listed(mem2, bs + [FreshBlock(brk, n)]) && Ordered(bs + [FreshBlock(brk, n)])
  {
    TiledIsOrdered(bs, base, brk);
    HeaderKept(mem1, mem2, FreshBlock(brk, n), 0);
    AppendInMemory(mem, mem2, bs, FreshBlock(brk, n));
  }

  /** The list malloc carves from, and how carving it gives its result. */
  ghost function Source(bs: seq<Block>, brk: nat, n: nat): seq<Block> {
    if FirstFit(bs, n) < |bs| then bs else bs + [FreshBlock(brk, n)]
  }

  lemma MallocFacts(bs: seq<Block>, base: nat, brk: nat, n: nat)
    requires Tiled(bs, base, brk)
    ensures var i, s := FirstFit(bs, n), Source(bs, brk, n);
            && i < |s| && s[i].free && Live(s) == Live(bs) && Ordered(s)
            && Take(s, i, n) == Blocks.Malloc(bs, brk, n) && Taken(bs, brk, n).addr == s[i].addr
            && AddrAt(Take(s, i, n), 0) == AddrAt(s, 0)
            && (Splits(s[i], n) ==> End(s[i]) <= brk + PagesTaken(bs, n) * PAGE)
  {
    TiledIsOrdered(bs, base, brk);
    LiveOfFresh(bs, base, brk, n);
  }

  class Heap {
    const mmu: Mmu.Mmu
    ghost const base: nat
    var heapStart: uint64
    ghost var blocks: seq<Block>

    ghost predicate Valid()
      reads this, mmu, mmu.ram
    {
      && PAGE <= base && mmu.nextFreePage <= mmu.ram.Length < TWO_64
      && heapStart == AddrAt(blocks, 0)
      && Listed(mmu.ram[..], blocks)
      && Tiled(blocks, base, mmu.nextFreePage)
    }

    /** Where the list ends: above the pages taken after a request that was too large. */
    ghost function Top(): nat
      reads this, mmu
    {
      if blocks == [] then mmu.nextFreePage else End(blocks[|blocks| - 1])
    }

    /** The list is without gaps and in memory; the heap is good if it also ends where its pages do. */
    ghost predicate Sound()
      reads this, mmu, mmu.ram
    {
      && PAGE <= base && mmu.nextFreePage <= mmu.ram.Length < TWO_64
      && heapStart == AddrAt(blocks, 0)
      && Listed(mmu.ram[..], blocks)
      && Top() <= mmu.ram.Length && Tiled(blocks, base, Top())
    }

    constructor (mmu: Mmu.Mmu)
      requires PAGE <= mmu.nextFreePage <= mmu.ram.Length < TWO_64
      ensures Valid() && blocks == [] && this.mmu == mmu && base == mmu.nextFreePage
    {
      this.mmu := mmu;
      base := mmu.nextFreePage;
      heapStart := 0;
      blocks := [];
    }

    /** A page is left, should the request need one. */
    ghost predicate HasRoom(n: nat)
      reads this, mmu, mmu.ram
    {
      FirstFit(blocks, n) < |blocks| || mmu.nextFreePage + PAGE <= mmu.ram.Length
    }

    // ----- header fields -----

    method GetFree(a: nat) returns (f: bool)
      requires a + HEADER <= mmu.ram.Length
      ensures f == FreeAt(mmu.ram[..], a)
    {
      assert mmu.ram[a + 8..a + 12] == mmu.ram[..][a + 8..a + 12];
      f := FromLE(mmu.ram[a + 8..a + 12]) != 0;
    }

    method SetSize(a: nat, x: uint64, ghost b: Block, ghost next: nat)
      requires HeaderIs(mmu.ram[..], b, next) && a == b.addr
      modifies mmu.ram
      ensures HeaderIs(mmu.ram[..], b.(size := x), next) && OnlyHeader(old(mmu.ram[..]), mmu.ram[..], a)
    {
      SizeStored(mmu.ram[..], b, next, x);
      Store(mmu.ram, a, x, 8);
    }

    method SetFree(a: nat, f: bool, ghost b: Block, ghost next: nat)
      requires HeaderIs(mmu.ram[..], b, next) && a == b.addr
      modifies mmu.ram
      ensures HeaderIs(mmu.ram[..], b.(free := f), next) && OnlyHeader(old(mmu.ram[..]), mmu.ram[..], a)
    {
      FreeStored(mmu.ram[..], b, next, f);
      Store(mmu.ram, a + 8, if f then 1 else 0, 4);
    }

    method SetNext(a: nat, x: uint64, ghost b: Block, ghost next: nat)
      requires HeaderIs(mmu.ram[..], b, next) && a == b.addr
      modifies mmu.ram
      ensures HeaderIs(mmu.ram[..], b, x) && OnlyHeader(old(mmu.ram[..]), mmu.ram[..], a)
    {
      NextStored(mmu.ram[..], b, next, x);
      Store(mmu.ram, a + 16, x, 8);
    }

    method SetSizeAndNext(a: nat, size: uint64, link: uint64, ghost b: Block, ghost next: nat)
      requires HeaderIs(mmu.ram[..], b, next) && a == b.addr
      modifies mmu.ram
      ensures HeaderIs(mmu.ram[..], b.(size := size), link) && OnlyHeader(old(mmu.ram[..]), mmu.ram[..], a)
    {
      SetSize(a, size, b, next);
      SetNext(a, link, b.(size := size), next);
    }

    /** Write all three fields of a header that held anything. */
    method SetHeader(a: nat, size: uint64, f: bool, next: uint64)
      requires a + HEADER <= mmu.ram.Length
      modifies mmu.ram
      ensures HeaderIs(mmu.ram[..], Block(a, size, f), next) && OnlyHeader(old(mmu.ram[..]), mmu.ram[..], a)
    {
      ghost var mem := mmu.ram[..];
      ghost var was := Block(a, SizeAt(mem, a), FreeAt(mem, a));
      SetSize(a, size, was, NextAt(mem, a));
      SetFree(a, f, was.(size := size), NextAt(mem, a));
      SetNext(a, next, Block(a, size, f), NextAt(mem, a));
    }

    // ----- the list -----

    method FindFreeBlock(n: nat) returns (current: uint64, last: uint64, ghost i: nat)
      requires Valid()
      ensures i == FirstFit(blocks, n)
      ensures current == AddrAt(blocks, FirstFit(blocks, n))
      ensures current == 0 <==> FirstFit(blocks, n) == |blocks|
      ensures last == if FirstFit(blocks, n) == 0 then 0 else blocks[FirstFit(blocks, n) - 1].addr
    {
      current, last, i := heapStart, 0, 0;
      while current != 0
        invariant i <= |blocks| && current == AddrAt(blocks, i)
        invariant last == if i == 0 then 0 else blocks[i - 1].addr
        invariant forall j :: 0 <= j < i ==> !Fits(blocks[j], n)
        decreases |blocks| - i
      {
        BlockInList(mmu.ram[..], blocks, i);
        var free := GetFree(current);
        var size := Load64(mmu.ram, current);
        if free && size >= n {
          break;
        }
        last := current;
        current := Load64(mmu.ram, current + 16);
        i := i + 1;
      }
      if i < |blocks| {
        BlockInList(mmu.ram[..], blocks, i);
      }
      FirstFitUnique(blocks, n, i);
    }

    /** The stores of split_block. */
    method CutBlock(block: nat, n: nat, size: uint64, ghost b: Block, ghost next: nat)
      requires HeaderIs(mmu.ram[..], b, next) && block == b.addr && size == b.size
      requires Splits(b, n) && End(b) <= mmu.ram.Length < TWO_64
      modifies mmu.ram
      ensures HeaderIs(mmu.ram[..], b.(size := n), Rest(b, n).addr) && HeaderIs(mmu.ram[..], Rest(b, n), next)
      ensures forall k :: 0 <= k < mmu.ram.Length && !(block <= k < block + HEADER)
                          && !(block + HEADER + n <= k < block + HEADER + n + HEADER)
                          ==> mmu.ram[k] == old(mmu.ram[k])
    {
      ghost var mem := mmu.ram[..];
      var newBlock := block + HEADER + n;
      var oldNext := Load64(mmu.ram, block + 16);
      SetHeader(newBlock, size - n - HEADER, true, oldNext);
      ghost var mem1 := mmu.ram[..];
      HeaderKept(mem, mem1, b, next);
      SetSizeAndNext(block, n, newBlock, b, next);
      HeaderKept(mem1, mmu.ram[..], Rest(b, n), next);
    }

    /** split_block on block i of the list. */
    method SplitBlock(block: nat, n: nat, ghost i: nat)
      requires Listed(mmu.ram[..], blocks) && Ordered(blocks) && mmu.ram.Length < TWO_64
      requires i < |blocks| && block == blocks[i].addr && n + HEADER + 32 < TWO_64
      requires Splits(blocks[i], n) ==> End(blocks[i]) <= mmu.ram.Length
      modifies this`blocks, mmu.ram
      ensures blocks == Split(old(blocks), i, n) && Listed(mmu.ram[..], blocks)
      ensures forall k :: 0 <= k < mmu.ram.Length && !(block <= k < block + HEADER)
                          && !(Splits(old(blocks[i]), n) && block + HEADER + n <= k < block + HEADER + n + HEADER)
                          ==> mmu.ram[k] == old(mmu.ram[k])
    {
      BlockInList(mmu.ram[..], blocks, i);
      var size := Load64(mmu.ram, block);
      if size >= n + HEADER + 32 {
        ghost var mem := mmu.ram[..];
        CutBlock(block, n, size, blocks[i], AddrAt(blocks, i + 1));
        SplitInMemory(mem, mmu.ram[..], blocks, i, n);
        blocks := Split(blocks, i, n);
      }
    }

    // ----- malloc -----

    /** Take a page and make it one free block. */
    method NewBlock(n: nat) returns (block: uint64)
      requires n + HEADER < TWO_64 && 0 < mmu.nextFreePage && mmu.nextFreePage + PAGE <= mmu.ram.Length < TWO_64
      modifies mmu`nextFreePage, mmu.ram
      ensures block == old(mmu.nextFreePage) && mmu.nextFreePage == block + PAGE
      ensures HeaderIs(mmu.ram[..], FreshBlock(block, n), 0)
      ensures forall k :: 0 <= k < mmu.ram.Length && !(block <= k < block + PAGE) ==> mmu.ram[k] == old(mmu.ram[k])
    {
      var allocSize := n + HEADER;
      if allocSize < PAGE {
        allocSize := PAGE;
      }
      block := mmu.AllocPage();
      SetHeader(block, allocSize - HEADER, true, 0);
    }

    /** A new block at the end of a list that has a last block. */
    method LinkNewBlock(n: nat, last: uint64) returns (block: uint64)
      requires Valid() && n + HEADER < TWO_64 && mmu.nextFreePage + PAGE <= mmu.ram.Length
      requires blocks != [] && last == blocks[|blocks| - 1].addr
      modifies this`blocks, mmu`nextFreePage, mmu.ram
      ensures block == old(mmu.nextFreePage) && mmu.nextFreePage == block + PAGE
      ensures blocks == old(blocks) + [FreshBlock(block, n)]
      ensures Listed(mmu.ram[..], blocks) && Ordered(blocks)
      ensures forall k :: 0 <= k < mmu.ram.Length && !(block <= k < block + PAGE) && !(last <= k < last + HEADER)
                ==> mmu.ram[k] == old(mmu.ram[k])
    {
      ghost var mem := mmu.ram[..];
      block := NewBlock(n);
      ghost var mem1 := mmu.ram[..];
      TailKept(mem, mem1, blocks, base, block);
      SetNext(last, block, blocks[|blocks| - 1], 0);
      LinkedInMemory(mem, mem1, mmu.ram[..], blocks, base, block, n);
      blocks := blocks + [FreshBlock(block, n)];
    }

    /** The first block of all. */
    method FirstBlock(n: nat) returns (block: uint64)
      requires Valid() && n + HEADER < TWO_64 && mmu.nextFreePage + PAGE <= mmu.ram.Length && blocks == []
      modifies this`heapStart, this`blocks, mmu`nextFreePage, mmu.ram
      ensures block == old(mmu.nextFreePage) == heapStart && mmu.nextFreePage == block + PAGE
      ensures blocks == [FreshBlock(block, n)] && Listed(mmu.ram[..], blocks)
      ensures forall k :: 0 <= k < mmu.ram.Length && !(block <= k < block + PAGE) ==> mmu.ram[k] == old(mmu.ram[k])
    {
      ghost var mem := mmu.ram[..];
      block := NewBlock(n);
      heapStart := block;
      AppendInMemory(mem, mmu.ram[..], [], FreshBlock(block, n));
      assert [] + [FreshBlock(block, n)] == [FreshBlock(block, n)];
      blocks := [FreshBlock(block, n)];
    }

    /** The block malloc will carve: the first fit, or a fresh last block. */
    method GetBlock(n: nat) returns (block: uint64, ghost i: nat)
      requires Valid() && n + HEADER < TWO_64 && HasRoom(n)
      modifies this`heapStart, this`blocks, mmu`nextFreePage, mmu.ram
      ensures i == FirstFit(old(blocks), n)
      ensures blocks == Source(old(blocks), old(mmu.nextFreePage), n)
      ensures mmu.nextFreePage == old(mmu.nextFreePage) + PagesTaken(old(blocks), n) * PAGE
      ensures heapStart == AddrAt(blocks, 0) && block == AddrAt(blocks, i)
      ensures Listed(mmu.ram[..], blocks) && Ordered(blocks)
      ensures LiveBytesKept(old(blocks), old(mmu.ram[..]), mmu.ram[..])
    {
      if blocks != [] {
        BlockInList(mmu.ram[..], blocks, 0);
      }
      if heapStart == 0 {
        block := FirstBlock(n);
        i := 0;
      } else {
        block, i := FindOrLink(n);
      }
    }

    /** ... in a list that has a first block. */
    method FindOrLink(n: nat) returns (block: uint64, ghost i: nat)
      requires Valid() && n + HEADER < TWO_64 && HasRoom(n) && blocks != []
      modifies this`blocks, mmu`nextFreePage, mmu.ram
      ensures i == FirstFit(old(blocks), n)
      ensures blocks == Source(old(blocks), old(mmu.nextFreePage), n)
      ensures mmu.nextFreePage == old(mmu.nextFreePage) + PagesTaken(old(blocks), n) * PAGE
      ensures heapStart == AddrAt(blocks, 0) && block == AddrAt(blocks, i)
      ensures Listed(mmu.ram[..], blocks) && Ordered(blocks)
      ensures LiveBytesKept(old(blocks), old(mmu.ram[..]), mmu.ram[..])
    {
      TiledIsOrdered(blocks, base, mmu.nextFreePage);
      LiveBytesInPayloads(blocks, base, mmu.nextFreePage);
      var last;
      block, last, i := FindFreeBlock(n);
      if block == 0 {
        block := LinkNewBlock(n, last);
      }
    }

    /** malloc. The heap stays good exactly when the request finds a fit or fits one
        page. */
    method Malloc(size: uint64) returns (ptr: uint64)
      requires Valid()
      requires size > 0 ==> Align(size) + HEADER + 32 < TWO_64 && HasRoom(Align(size))
      modifies this`heapStart, this`blocks, mmu`nextFreePage, mmu.ram
      ensures size == 0 ==> ptr == 0 && heapStart == old(heapStart) && blocks == old(blocks)
                            && mmu.nextFreePage == old(mmu.nextFreePage) && mmu.ram[..] == old(mmu.ram[..])
      ensures size > 0 ==>
                var n, bs, brk := Align(size), old(blocks), old(mmu.nextFreePage);
                && blocks == Blocks.Malloc(bs, brk, n) && ptr == Taken(bs, brk, n).addr + HEADER
                && mmu.nextFreePage == brk + PagesTaken(bs, n) * PAGE
      ensures Valid() <==> size == 0 || FirstFit(old(blocks), Align(size)) < |old(blocks)| || Align(size) <= PAGE_PAYLOAD
      ensures size == 0 || TopAfter(old(blocks), old(mmu.nextFreePage), Align(size)) <= mmu.ram.Length ==> Sound()
      ensures LiveBytesKept(old(blocks), old(mmu.ram[..]), mmu.ram[..])
    {
      if size == 0 {
        return 0;
      }
      MallocTiledIff(blocks, base, mmu.nextFreePage, Align(size));
      MallocTiledTo(blocks, base, mmu.nextFreePage, Align(size));
      ptr := Allocate(Align(size));
    }

    /** malloc of an aligned size. */
    method Allocate(n: nat) returns (ptr: uint64)
      requires Valid() && n + HEADER + 32 < TWO_64 && HasRoom(n)
      modifies this`heapStart, this`blocks, mmu`nextFreePage, mmu.ram
      ensures blocks == Blocks.Malloc(old(blocks), old(mmu.nextFreePage), n)
      ensures ptr == Taken(old(blocks), old(mmu.nextFreePage), n).addr + HEADER
      ensures mmu.nextFreePage == old(mmu.nextFreePage) + PagesTaken(old(blocks), n) * PAGE <= mmu.ram.Length
      ensures heapStart == AddrAt(blocks, 0) && Listed(mmu.ram[..], blocks)
      ensures LiveBytesKept(old(blocks), old(mmu.ram[..]), mmu.ram[..])
    {
      ghost var bs, brk := blocks, mmu.nextFreePage;
      MallocFacts(bs, base, brk, n);
      var block: uint64;
      ghost var i: nat;
      block, i := GetBlock(n);
      Carve(block, n, i, bs);
      ptr := block + HEADER;
    }

    /** The end of malloc: split block i and mark it used. */
    method Carve(block: uint64, n: nat, ghost i: nat, ghost bs: seq<Block>)
      requires Listed(mmu.ram[..], blocks) && Ordered(blocks) && mmu.ram.Length < TWO_64
      requires i < |blocks| && block == blocks[i].addr && n + HEADER + 32 < TWO_64 && blocks[i].free
      requires Splits(blocks[i], n) ==> End(blocks[i]) <= mmu.ram.Length
      requires Live(bs) == Live(blocks)
      modifies this`blocks, mmu.ram
      ensures blocks == Take(old(blocks), i, n) && Listed(mmu.ram[..], blocks) && block + HEADER <= mmu.ram.Length
      ensures LiveBytesKept(bs, old(mmu.ram[..]), mmu.ram[..])
    {
      ghost var bs1 := blocks;
      forall k | LiveByte(bs, k)
        ensures !(bs1[i].addr <= k < End(bs1[i]))
      {
        assert LiveByte(bs1, k);
        LiveByteNotInFree(bs1, i, k);
      }
      SplitBlock(block, n, i);
      SplitOrdered(bs1, i, n);
      ghost var mem, bs2 := mmu.ram[..], blocks;
      BlockInList(mem, bs2, i);
      SetFree(block, false, bs2[i], AddrAt(bs2, i + 1));
      MarkInMemory(mem, mmu.ram[..], bs2, i, false);
      blocks := bs2[i := bs2[i].(free := false)];
    }

    // ----- free -----

    /** free of a pointer malloc returned, to block b. */
    method Free(ptr: uint64, ghost b: Block)
      requires Sound() && (ptr != 0 ==> b in blocks && ptr == b.addr + HEADER)
      modifies this`blocks, mmu.ram
      ensures Sound() && Top() == old(Top()) && mmu.nextFreePage == old(mmu.nextFreePage)
      ensures Valid() <==> old(Valid())
      ensures if ptr == 0 then blocks == old(blocks) else Freed(old(blocks), b, blocks)
      ensures LiveBytesKept(old(blocks), old(mmu.ram[..]), mmu.ram[..])
    {
      if ptr == 0 {
        return;
      }
      ghost var bs, brk := blocks, Top();
      ghost var i := IndexOf(bs, b);
      TiledIsOrdered(bs, base, brk);
      LiveBytesInPayloads(bs, base, brk);
      FreeTiled(bs, base, brk, i);
      Release(ptr - HEADER, i);
    }

    /** Mark block i free and merge it forward. */
    method Release(block: nat, ghost i: nat)
      requires Listed(mmu.ram[..], blocks) && Ordered(blocks) && mmu.ram.Length < TWO_64
      requires i < |blocks| && block == blocks[i].addr
      requires forall j :: 0 <= j < |blocks| ==> End(blocks[j]) <= mmu.ram.Length
      modifies this`blocks, mmu.ram
      ensures blocks == Blocks.Free(old(blocks), i) && AddrAt(blocks, 0) == AddrAt(old(blocks), 0)
      ensures Listed(mmu.ram[..], blocks) && OnlyHeader(old(mmu.ram[..]), mmu.ram[..], block)
    {
      ghost var mem, bs := mmu.ram[..], blocks;
      BlockInList(mem, bs, i);
      SetFree(block, true, bs[i], AddrAt(bs, i + 1));
      MarkInMemory(mem, mmu.ram[..], bs, i, true);
      blocks := bs[i := bs[i].(free := true)];
      FreeIsMarkAndMerge(bs, i);
      MergeForward(block, i);
    }

    /** The merge at the end of free. */
    method MergeForward(block: uint64, ghost i: nat)
      requires Listed(mmu.ram[..], blocks) && Ordered(blocks) && mmu.ram.Length < TWO_64
      requires i < |blocks| && block == blocks[i].addr && blocks[i].free
      requires forall j :: 0 <= j < |blocks| ==> End(blocks[j]) <= mmu.ram.Length
      modifies this`blocks, mmu.ram
      ensures blocks == if Merges(old(blocks), i) then Blocks.Free(old(blocks), i) else old(blocks)
      ensures Listed(mmu.ram[..], blocks) && OnlyHeader(old(mmu.ram[..]), mmu.ram[..], block)
    {
      ghost var mem, bs := mmu.ram[..], blocks;
      BlockInList(mem, bs, i);
      if i + 1 < |bs| {
        BlockInList(mem, bs, i + 1);
      }
      var next := Load64(mmu.ram, block + 16);
      if next == 0 {
        return;
      }
      var nextFree := GetFree(next);
      if nextFree {
        var size := Load64(mmu.ram, block);
        var nextSize := Load64(mmu.ram, next);
        var nextNext := Load64(mmu.ram, next + 16);
        SetSizeAndNext(block, size + (HEADER + nextSize), nextNext, bs[i], next);
        MergeInMemory(mem, mmu.ram[..], bs, i);
        blocks := Blocks.Free(bs, i);
      }
    }

    // ----- calloc and realloc -----

    /** Memory for the block malloc returns is there, if not on the page it takes. */
    ghost predicate CanAllocate(size: uint64)
      reads this, mmu, mmu.ram
    {
      && Valid() && size + 64 <= TWO_64 && HasRoom(Align(size))
      && TopAfter(blocks, mmu.nextFreePage, Align(size)) <= mmu.ram.Length
    }

    /** The request finds a fit or fits one page. */
    ghost predicate Serves(size: uint64)
      reads this
    {
      FirstFit(blocks, Align(size)) < |blocks| || Align(size) <= PAGE_PAYLOAD
    }

    method Calloc(nmemb: uint64, size: uint64) returns (ptr: uint64)
      requires CanAllocate(nmemb * size % TWO_64)
      modifies this`heapStart, this`blocks, mmu`nextFreePage, mmu.ram
      ensures Sound() && (Valid() <==> nmemb * size % TWO_64 == 0 || old(Serves(nmemb * size % TWO_64)))
      ensures ptr == 0 <==> nmemb * size % TWO_64 == 0
      ensures ptr == 0 ==> blocks == old(blocks)
      ensures ptr != 0 ==> var n := Align(nmemb * size % TWO_64);
                           && blocks == Blocks.Malloc(old(blocks), old(mmu.nextFreePage), n)
                           && ptr == Taken(old(blocks), old(mmu.nextFreePage), n).addr + HEADER
      ensures ptr != 0 ==> ptr + nmemb * size % TWO_64 <= mmu.ram.Length
                           && forall k :: ptr <= k < ptr + nmemb * size % TWO_64 ==> mmu.ram[k] == 0
      ensures LiveBytesKept(old(blocks), old(mmu.ram[..]), mmu.ram[..])
    {
      var total := nmemb * size % TWO_64;
      if total == 0 {
        ptr := Malloc(0);
        return;
      }
      ghost var bs, brk, mem0 := blocks, mmu.nextFreePage, mmu.ram[..];
      ghost var t: Block;
      ptr, t := MallocFresh(total);
      ghost var mem := mmu.ram[..];
      MemSet(mmu.ram, ptr, 0, total);
      FreshWritten(mem0, mem, mmu.ram[..], bs, base, brk, Align(total));
    }

    /** malloc, as its caller sees it. */
    method MallocFresh(size: uint64) returns (ptr: uint64, ghost t: Block)
      requires CanAllocate(size) && size > 0
      modifies this`heapStart, this`blocks, mmu`nextFreePage, mmu.ram
      ensures Sound() && (Valid() <==> old(Serves(size)))
      ensures blocks == Blocks.Malloc(old(blocks), old(mmu.nextFreePage), Align(size))
      ensures t == Taken(old(blocks), old(mmu.nextFreePage), Align(size)) && ptr == t.addr + HEADER
      ensures t in Live(blocks) && size <= t.size && End(t) <= mmu.ram.Length && Align(size) >= size
      ensures LiveBytesKept(old(blocks), old(mmu.ram[..]), mmu.ram[..])
    {
      AlignIff(size);
      TakenInHeap(blocks, base, mmu.nextFreePage, Align(size));
      t := Taken(blocks, mmu.nextFreePage, Align(size));
      ptr := Malloc(size);
    }

    /** realloc of a live block that is large enough. */
    method Shrink(ptr: uint64, size: uint64, ghost b: Block)
      requires Sound() && b in Live(blocks) && ptr == b.addr + HEADER && b.size >= size
      modifies this`blocks, mmu.ram
      ensures Sound() && (Valid() <==> old(Valid()))
      ensures blocks == Split(old(blocks), IndexOf(old(blocks), b), size)
      ensures Copied(mmu.ram[..], ptr, old(mmu.ram[..]), ptr, size)
      ensures OtherBytesKept(old(blocks), b, old(mmu.ram[..]), mmu.ram[..])
    {
      ghost var i := IndexOf(blocks, b);
      TiledIsOrdered(blocks, base, Top());
      SplitTiled(blocks, base, Top(), i, size);
      OtherBytesOutside(blocks, base, Top(), b);
      SplitBlock(ptr - HEADER, size, i);
    }

    /** The copy of realloc. */
    method CopyBytes(newPtr: uint64, ptr: uint64, n: uint64)
      requires newPtr + n <= mmu.ram.Length && ptr + n <= mmu.ram.Length && (newPtr + n <= ptr || ptr + n <= newPtr)
      modifies mmu.ram
      ensures Copied(mmu.ram[..], newPtr, old(mmu.ram[..]), ptr, n)
      ensures forall k :: 0 <= k < mmu.ram.Length && !(newPtr <= k < newPtr + n) ==> mmu.ram[k] == old(mmu.ram[k])
    {
      ghost var mem := mmu.ram[..];
      MemCpy(mmu.ram, newPtr, mmu.ram, ptr, n);
      CopyUpIsPatch(mem, newPtr, ptr, n);
      assert mmu.ram[..][newPtr..newPtr + n] == mem[ptr..ptr + n];
    }

    /** ... out of block b, into a live block t. */
    method CopyPayload(newPtr: uint64, ptr: uint64, ghost b: Block, ghost t: Block)
      requires Sound() && b in blocks && t in Live(blocks) && b.size <= t.size
      requires ptr == b.addr + HEADER && newPtr == t.addr + HEADER && (End(b) <= t.addr || End(t) <= b.addr)
      modifies mmu.ram
      ensures Sound() && (Valid() <==> old(Valid()))
      ensures Copied(mmu.ram[..], newPtr, old(mmu.ram[..]), ptr, b.size)
      ensures OtherBytesKept(blocks, t, old(mmu.ram[..]), mmu.ram[..])
    {
      ghost var mem := mmu.ram[..];
      SizeInHeader(mem, blocks, base, Top(), b);
      SizeInHeader(mem, blocks, base, Top(), t);
      var oldSize := Load64(mmu.ram, ptr - HEADER);
      CopyBytes(newPtr, ptr, oldSize);
      PayloadStored(mem, mmu.ram[..], blocks, base, Top(), t);
    }

    /** realloc of a live block that is too small: allocate and copy. */
    method CopyOut(ptr: uint64, size: uint64, ghost b: Block) returns (newPtr: uint64, ghost t: Block)
      requires CanAllocate(size) && b in Live(blocks) && ptr == b.addr + HEADER && b.size < size
      modifies this`heapStart, this`blocks, mmu`nextFreePage, mmu.ram
      ensures Beside(old(blocks), blocks, old(mmu.nextFreePage), Align(size), b, t, mmu.ram.Length)
      ensures newPtr == t.addr + HEADER
      ensures Sound() && (Valid() <==> old(Serves(size)))
      ensures Copied(mmu.ram[..], newPtr, old(mmu.ram[..]), ptr, b.size)
      ensures LiveBytesKept(old(blocks), old(mmu.ram[..]), mmu.ram[..])
    {
      ghost var bs, brk, mem0 := blocks, mmu.nextFreePage, mmu.ram[..];
      newPtr, t := MallocBeside(size, b);
      ghost var mem := mmu.ram[..];
      CopyPayload(newPtr, ptr, b, t);
      CopiedOut(mem0, mem, mmu.ram[..], bs, base, brk, Align(size), b, t, ptr, newPtr);
    }

    /** malloc, as a live block b sees it. */
    method MallocBeside(size: uint64, ghost b: Block) returns (newPtr: uint64, ghost t: Block)
      requires CanAllocate(size) && b in Live(blocks) && b.size < size
      modifies this`heapStart, this`blocks, mmu`nextFreePage, mmu.ram
      ensures Sound() && (Valid() <==> old(Serves(size))) && newPtr == t.addr + HEADER
      ensures Beside(old(blocks), blocks, old(mmu.nextFreePage), Align(size), b, t, mmu.ram.Length)
      ensures LiveBytesKept(old(blocks), old(mmu.ram[..]), mmu.ram[..])
    {
      ghost var bs, brk, n := blocks, mmu.nextFreePage, Align(size);
      KeptByMalloc(bs, base, brk, n, b);
      MallocLive(bs, base, brk, n);
      newPtr, t := MallocFresh(size);
    }

    /** ... and free the old block. */
    method Move(ptr: uint64, size: uint64, ghost b: Block) returns (newPtr: uint64)
      requires CanAllocate(size) && b in Live(blocks) && ptr == b.addr + HEADER && b.size < size
      modifies this`heapStart, this`blocks, mmu`nextFreePage, mmu.ram
      ensures Sound() && (Valid() <==> old(Serves(size))) && newPtr > 0
      ensures Moved(old(blocks), old(mmu.nextFreePage), Align(size), b, blocks, newPtr)
      ensures Copied(mmu.ram[..], newPtr, old(mmu.ram[..]), ptr, b.size)
      ensures LiveBytesKept(old(blocks), old(mmu.ram[..]), mmu.ram[..])
    {
      ghost var bs, brk, mem0 := blocks, mmu.nextFreePage, mmu.ram[..];
      ghost var t: Block;
      newPtr, t := CopyOut(ptr, size, b);
      ghost var bs1, mem1 := blocks, mmu.ram[..];
      Free(ptr, b);
      FreedBeside(bs, bs1, blocks, brk, Align(size), b, t, ptr, newPtr, mem0, mem1, mmu.ram[..]);
    }

    /** realloc of a pointer to live block b, or of null. */
    method Realloc(ptr: uint64, size: uint64, ghost b: Block) returns (newPtr: uint64)
      requires Valid() && (ptr != 0 ==> b in Live(blocks) && ptr == b.addr + HEADER)
      requires size > 0 && (ptr == 0 || b.size < size) ==> CanAllocate(size)
      modifies this`heapStart, this`blocks, mmu`nextFreePage, mmu.ram
      ensures Sound() && (Valid() <==> (size > 0 && (ptr == 0 || b.size < size) ==> old(Serves(size))))
      ensures newPtr == 0 <==> size == 0
      ensures Reallocated(old(blocks), old(mmu.nextFreePage), ptr, size, b, blocks, newPtr)
      ensures ptr != 0 && size != 0 ==> Copied(mmu.ram[..], newPtr, old(mmu.ram[..]), ptr, Min(b.size, size))
      ensures OtherBytesKept(old(blocks), b, old(mmu.ram[..]), mmu.ram[..])
    {
      ghost var bs, brk := blocks, mmu.nextFreePage;
      OtherIsLive(bs, b);
      if ptr == 0 {
        newPtr := Malloc(size);
        return;
      }
      if size == 0 {
        Free(ptr, b);
        return 0;
      }
      BlockInList(mmu.ram[..], bs, IndexOf(bs, b));
      var oldSize := Load64(mmu.ram, ptr - HEADER);
      if oldSize >= size {
        Shrink(ptr, size, b);
        assert Min(b.size, size) == size;
        return ptr;
      }
      newPtr := Move(ptr, size, b);
    }
  }
}
