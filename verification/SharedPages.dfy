/** The heap of src/impl/kernel/stdlib.c while others take pages from the same allocator,
    as src/impl/kernel/mmu.c does for its tables: what `free` then does to their pages. */
module SharedPages {
  import opened Blocks
  import opened Sequences

  /** The heap, and the bytes of the pages others have taken. */
  datatype Shared = Shared(heap: HeapState, foreign: set<nat>)

  datatype SharedOp = HeapOp(op: Op) | ForeignPage

  ghost predicate Legal(s: Shared, op: SharedOp) { op.HeapOp? ==> Blocks.Legal(s.heap, op.op) }

  predicate OnPage(a: nat, k: nat) { a <= k < a + PAGE }

  function PageBytes(a: nat): set<nat> { set k | a <= k < a + PAGE && OnPage(a, k) }

  ghost function Exec(s: Shared, op: SharedOp): Shared
    requires Legal(s, op)
  {
    match op
    case HeapOp(o) => s.(heap := Blocks.Exec(s.heap, o))
    case ForeignPage => Shared(s.heap.(brk := s.heap.brk + PAGE), s.foreign + PageBytes(s.heap.brk))
  }

  ghost predicate LegalRun(s: Shared, ops: seq<SharedOp>)
    decreases |ops|
  {
    ops == [] || (Legal(s, ops[0]) && LegalRun(Exec(s, ops[0]), ops[1..]))
  }

  ghost function Run(s: Shared, ops: seq<SharedOp>): Shared
    requires LegalRun(s, ops)
    decreases |ops|
  {
    if ops == [] then s else Run(Exec(s, ops[0]), ops[1..])
  }

  predicate AdjacentMerge(bs: seq<Block>, i: nat)
    requires i < |bs|
  {
    Merges(bs, i) ==> End(bs[i]) == bs[i + 1].addr
  }

  /** The operation merges no two blocks that are apart. */
  ghost predicate Joins(s: Shared, op: SharedOp)
    requires Legal(s, op)
  {
    op.HeapOp? && op.op.FreeOp? ==> AdjacentMerge(s.heap.blocks, IndexOf(s.heap.blocks, op.op.b))
  }

  ghost predicate AllJoin(s: Shared, ops: seq<SharedOp>)
    requires LegalRun(s, ops)
    decreases |ops|
  {
    ops == [] || (Joins(s, ops[0]) && AllJoin(Exec(s, ops[0]), ops[1..]))
  }

  // ----- which bytes the blocks cover -----

  ghost predicate Covered(bs: seq<Block>, k: nat) {
    exists i :: 0 <= i < |bs| && Covers(bs[i], k)
  }

  lemma CoveredConcat(a: seq<Block>, b: seq<Block>, k: nat)
    ensures Covered(a + b, k) == (Covered(a, k) || Covered(b, k))
  {
    if Covered(a, k) {
      var i :| 0 <= i < |a| && Covers(a[i], k);
      assert Covers((a + b)[i], k);
    }
    if Covered(b, k) {
      var i :| 0 <= i < |b| && Covers(b[i], k);
      assert Covers((a + b)[|a| + i], k);
    }
  }

  lemma CoveredOne(b: Block, k: nat)
    ensures Covered([b], k) == Covers(b, k)
  {
    assert [b][0] == b;
  }

  lemma CoveredTwo(b: Block, c: Block, k: nat)
    ensures Covered([b, c], k) == (Covers(b, k) || Covers(c, k))
  {
    assert [b, c][0] == b && [b, c][1] == c;
  }

  /** Replacing blocks in the middle. */
  lemma CoveredSplice(a: seq<Block>, m: seq<Block>, c: seq<Block>, k: nat)
    ensures Covered(a + m + c, k) == (Covered(a, k) || Covered(m, k) || Covered(c, k))
  {
    CoveredConcat(a, m, k);
    CoveredConcat(a + m, c, k);
  }

  lemma CoveredReplaced(bs: seq<Block>, i: nat, b: Block, k: nat)
    requires i < |bs| && b.addr == bs[i].addr && b.size == bs[i].size
    ensures Covered(bs[i := b], k) == Covered(bs, k)
  {
    assert bs == bs[..i] + [bs[i]] + bs[i + 1..];
    assert bs[i := b] == bs[..i] + [b] + bs[i + 1..];
    CoveredSplice(bs[..i], [bs[i]], bs[i + 1..], k);
    CoveredSplice(bs[..i], [b], bs[i + 1..], k);
    CoveredOne(bs[i], k);
    CoveredOne(b, k);
  }

  lemma CoveredSplit(bs: seq<Block>, i: nat, n: nat, k: nat)
    requires i < |bs|
    ensures Covered(Split(bs, i, n), k) == Covered(bs, k)
  {
    if Splits(bs[i], n) {
      var b, c := bs[i].(size := n), Rest(bs[i], n);
      assert bs == bs[..i] + [bs[i]] + bs[i + 1..];
      CoveredSplice(bs[..i], [bs[i]], bs[i + 1..], k);
      CoveredSplice(bs[..i], [b, c], bs[i + 1..], k);
      CoveredOne(bs[i], k);
      CoveredTwo(b, c, k);
    }
  }

  lemma CoveredTake(bs: seq<Block>, i: nat, n: nat, k: nat)
    requires i < |bs|
    ensures Covered(Take(bs, i, n), k) == Covered(bs, k)
  {
    CoveredSplit(bs, i, n, k);
    CoveredReplaced(Split(bs, i, n), i, Split(bs, i, n)[i].(free := false), k);
  }

  /** Serving a request covers the page it takes and nothing else. */
  lemma CoveredMalloc(bs: seq<Block>, brk: nat, n: nat, k: nat)
    requires FirstFit(bs, n) < |bs| || n <= PAGE_PAYLOAD
    ensures Covered(Malloc(bs, brk, n), k) ==
            (Covered(bs, k) || brk <= k < brk + PagesTaken(bs, n) * PAGE)
  {
    var i := FirstFit(bs, n);
    if i < |bs| {
      CoveredTake(bs, i, n, k);
    } else {
      CoveredTake(bs + [FreshBlock(brk, n)], |bs|, n, k);
      CoveredConcat(bs, [FreshBlock(brk, n)], k);
      CoveredOne(FreshBlock(brk, n), k);
    }
  }

  /** The block a merge makes: below the end of the first block nothing changes, and from
      there on it reaches as far as the second block is long. */
  lemma CoveredFree(bs: seq<Block>, i: nat, k: nat)
    requires Ordered(bs) && i < |bs|
    ensures AdjacentMerge(bs, i) ==> Covered(Free(bs, i), k) == Covered(bs, k)
    ensures k < End(bs[i]) ==> Covered(Free(bs, i), k) == Covered(bs, k)
    ensures Merges(bs, i) ==> Covered(Free(bs, i), End(bs[i]))
  {
    if Merges(bs, i) {
      CoveredMerge(bs, i, k);
      CoveredMerge(bs, i, End(bs[i]));
    } else {
      CoveredReplaced(bs, i, bs[i].(free := true), k);
    }
  }

  lemma CoveredMerge(bs: seq<Block>, i: nat, k: nat)
    requires Ordered(bs) && i < |bs| && Merges(bs, i)
    ensures AdjacentMerge(bs, i) || k < End(bs[i]) ==> Covered(Free(bs, i), k) == Covered(bs, k)
    ensures k == End(bs[i]) ==> Covered(Free(bs, i), k)
  {
    var x, y := bs[i], bs[i + 1];
    var b := Block(x.addr, x.size + HEADER + y.size, true);
    AroundTwo(bs, i);
    CoveredPair(bs[..i], x, y, b, bs[i + 2..], k);
  }

  lemma CoveredPair(before: seq<Block>, x: Block, y: Block, b: Block, after: seq<Block>, k: nat)
    requires b.addr == x.addr && b.size == x.size + HEADER + y.size && End(x) <= y.addr
    ensures End(x) == y.addr || k < End(x) ==>
              Covered(before + [b] + after, k) == Covered(before + [x, y] + after, k)
    ensures k == End(x) ==> Covered(before + [b] + after, k)
  {
    CoveredSplice(before, [x, y], after, k);
    CoveredSplice(before, [b], after, k);
    CoveredTwo(x, y, k);
    CoveredOne(b, k);
    MergedCovers(x, y, b, k);
  }

  lemma MergedCovers(x: Block, y: Block, b: Block, k: nat)
    requires b.addr == x.addr && b.size == x.size + HEADER + y.size && End(x) <= y.addr
    ensures End(x) == y.addr || k < End(x) ==> Covers(b, k) == (Covers(x, k) || Covers(y, k))
    ensures Covers(b, End(x))
  {
  }

  /** The byte behind a block that does not touch the next is in no block. */
  lemma GapUncovered(bs: seq<Block>, i: nat)
    requires Ordered(bs) && i + 1 < |bs| && End(bs[i]) != bs[i + 1].addr
    ensures End(bs[i]) < bs[i + 1].addr && !Covered(bs, End(bs[i]))
  {
    assert End(bs[i]) <= bs[i + 1].addr;
    forall j | 0 <= j < |bs|
      ensures !Covers(bs[j], End(bs[i]))
    {
      if j < i {
        assert End(bs[j]) <= bs[i].addr;
      } else if j > i + 1 {
        assert End(bs[i + 1]) <= bs[j].addr;
      }
    }
  }

  // ----- what every run keeps -----

  /** The blocks are in order and on the pages taken so far. */
  ghost predicate Within(s: Shared, base: nat) {
    && Ordered(s.heap.blocks) && base <= s.heap.brk
    && (forall i :: 0 <= i < |s.heap.blocks| ==> base <= s.heap.blocks[i].addr && End(s.heap.blocks[i]) <= s.heap.brk)
    && (forall k :: k in s.foreign ==> base <= k < s.heap.brk)
  }

  /** A byte somebody has. */
  ghost predicate Owned(s: Shared, k: nat) { Covered(s.heap.blocks, k) || k in s.foreign }

  /** No block holds a foreign byte. */
  ghost predicate Apart(s: Shared) {
    forall k :: k in s.foreign ==> !Covered(s.heap.blocks, k)
  }

  /** Every byte taken is the heap's or foreign, and not both. */
  ghost predicate Partitioned(s: Shared, base: nat) {
    Within(s, base) && Apart(s) && forall k :: base <= k < s.heap.brk ==> Owned(s, k)
  }

  /** A foreign byte in a block, and no byte lost up to it. */
  ghost predicate Swallowed(s: Shared, base: nat, f: nat) {
    && f in s.foreign && Covered(s.heap.blocks, f)
    && forall k :: base <= k <= f ==> Owned(s, k)
  }

  lemma SplitWithin(bs: seq<Block>, base: nat, brk: nat, i: nat, n: nat)
    requires Ordered(bs) && i < |bs|
    requires forall j :: 0 <= j < |bs| ==> base <= bs[j].addr && End(bs[j]) <= brk
    ensures var s := Split(bs, i, n);
            i < |s| && Ordered(s) && forall j :: 0 <= j < |s| ==> base <= s[j].addr && End(s[j]) <= brk
  {
    SplitOrdered(bs, i, n);
    var s := Split(bs, i, n);
    if Splits(bs[i], n) {
      assert forall j :: 0 <= j < |s| ==>
        s[j] == if j < i then bs[j] else if j == i then bs[i].(size := n)
                else if j == i + 1 then Rest(bs[i], n) else bs[j - 1];
    }
  }

  lemma TakeWithin(bs: seq<Block>, base: nat, brk: nat, i: nat, n: nat)
    requires Ordered(bs) && i < |bs|
    requires forall j :: 0 <= j < |bs| ==> base <= bs[j].addr && End(bs[j]) <= brk
    ensures var s := Take(bs, i, n);
            Ordered(s) && forall j :: 0 <= j < |s| ==> base <= s[j].addr && End(s[j]) <= brk
  {
    SplitWithin(bs, base, brk, i, n);
    FlagWithin(Split(bs, i, n), Take(bs, i, n));
  }

  lemma FlagWithin(s: seq<Block>, t: seq<Block>)
    requires Ordered(s) && |t| == |s|
    requires forall j :: 0 <= j < |s| ==> t[j].addr == s[j].addr && t[j].size == s[j].size
    ensures Ordered(t)
  {
    assert forall j :: 0 <= j < |t| ==> End(t[j]) == End(s[j]);
  }

  lemma FreeWithin(bs: seq<Block>, base: nat, brk: nat, i: nat)
    requires Ordered(bs) && i < |bs|
    requires forall j :: 0 <= j < |bs| ==> base <= bs[j].addr && End(bs[j]) <= brk
    ensures Ordered(Free(bs, i))
    ensures forall j :: 0 <= j < |Free(bs, i)| ==> base <= Free(bs, i)[j].addr && End(Free(bs, i)[j]) <= brk
  {
    var s := Free(bs, i);
    if Merges(bs, i) {
      assert End(bs[i]) <= bs[i + 1].addr;
      assert s[i].addr == bs[i].addr && End(s[i]) <= End(bs[i + 1]);
      assert forall j :: 0 <= j < |s| && j != i ==> s[j] == if j < i then bs[j] else bs[j + 1];
    }
  }

  lemma MallocWithin(s: Shared, base: nat, n: nat)
    requires Within(s, base) && Legal(s, HeapOp(MallocOp(n)))
    ensures Within(Exec(s, HeapOp(MallocOp(n))), base)
  {
    var bs, brk := s.heap.blocks, s.heap.brk;
    var i := FirstFit(bs, n);
    if i < |bs| {
      TakeWithin(bs, base, brk, i, n);
    } else {
      TakeWithin(bs + [FreshBlock(brk, n)], base, brk + PAGE, |bs|, n);
    }
  }

  lemma ExecWithin(s: Shared, base: nat, op: SharedOp)
    requires Within(s, base) && Legal(s, op)
    ensures Within(Exec(s, op), base)
  {
    var bs, brk := s.heap.blocks, s.heap.brk;
    match op
    case HeapOp(MallocOp(n)) => MallocWithin(s, base, n);
    case HeapOp(FreeOp(b)) => FreeWithin(bs, base, brk, IndexOf(bs, b));
    case HeapOp(ShrinkOp(b, n)) => SplitWithin(bs, base, brk, IndexOf(bs, b), n);
    case ForeignPage =>
  }

  /** Without a merge of blocks apart the bytes covered change by the page taken only. */
  lemma ExecCovers(s: Shared, base: nat, op: SharedOp, k: nat)
    requires Within(s, base) && Legal(s, op) && Joins(s, op)
    ensures var r := Exec(s, op);
            && Covered(r.heap.blocks, k) ==
               (Covered(s.heap.blocks, k) || (op.HeapOp? && s.heap.brk <= k < r.heap.brk))
            && (k in r.foreign) == (k in s.foreign || (op.ForeignPage? && s.heap.brk <= k < r.heap.brk))
  {
    var bs, brk := s.heap.blocks, s.heap.brk;
    match op
    case HeapOp(MallocOp(n)) => CoveredMalloc(bs, brk, n, k);
    case HeapOp(FreeOp(b)) => CoveredFree(bs, IndexOf(bs, b), k);
    case HeapOp(ShrinkOp(b, n)) => CoveredSplit(bs, IndexOf(bs, b), n, k);
    case ForeignPage =>
  }

  lemma NothingBeyond(s: Shared, base: nat, k: nat)
    requires Within(s, base) && k >= s.heap.brk
    ensures !Covered(s.heap.blocks, k) && k !in s.foreign
  {
  }

  lemma JoinKeepsPartition(s: Shared, base: nat, op: SharedOp)
    requires Partitioned(s, base) && Legal(s, op) && Joins(s, op)
    ensures Partitioned(Exec(s, op), base)
  {
    var r := Exec(s, op);
    ExecWithin(s, base, op);
    forall k: nat | base <= k < r.heap.brk
      ensures Owned(r, k) && !(k in r.foreign && Covered(r.heap.blocks, k))
    {
      ExecCovers(s, base, op, k);
      if k >= s.heap.brk {
        NothingBeyond(s, base, k);
      } else {
        assert Owned(s, k);
      }
    }
  }

  lemma JoinKeepsSwallowed(s: Shared, base: nat, op: SharedOp, f: nat)
    requires Within(s, base) && Swallowed(s, base, f) && Legal(s, op) && Joins(s, op)
    ensures Swallowed(Exec(s, op), base, f)
  {
    forall k: nat | base <= k <= f
      ensures Owned(Exec(s, op), k)
    {
      assert Owned(s, k);
      ExecCovers(s, base, op, k);
    }
    ExecCovers(s, base, op, f);
  }

  /** A merge of two blocks that are apart: where no byte up to the gap has been lost, the
      first byte of the gap is foreign, and is now in the merged block. */
  lemma BadMergeSwallows(s: Shared, base: nat, b: Block, e: nat)
    requires Within(s, base) && Legal(s, HeapOp(FreeOp(b))) && !Joins(s, HeapOp(FreeOp(b)))
    requires e == End(s.heap.blocks[IndexOf(s.heap.blocks, b)])
    requires forall k :: base <= k <= e ==> Owned(s, k)
    ensures Swallowed(Exec(s, HeapOp(FreeOp(b))), base, e)
  {
    var bs := s.heap.blocks;
    var i := IndexOf(bs, b);
    GapUncovered(bs, i);
    assert e in s.foreign by { assert Owned(s, e); }
    CoveredFree(bs, i, e);
    forall k: nat | base <= k < e
      ensures Owned(Exec(s, HeapOp(FreeOp(b))), k)
    {
      assert Owned(s, k);
      CoveredFree(bs, i, k);
    }
  }

  /** ... and below the gap nothing changes. */
  lemma BadMergeKeepsLower(s: Shared, base: nat, b: Block, f: nat)
    requires Within(s, base) && Swallowed(s, base, f) && Legal(s, HeapOp(FreeOp(b)))
    requires f < End(s.heap.blocks[IndexOf(s.heap.blocks, b)])
    ensures Swallowed(Exec(s, HeapOp(FreeOp(b))), base, f)
  {
    var bs := s.heap.blocks;
    forall k: nat | base <= k <= f
      ensures Owned(Exec(s, HeapOp(FreeOp(b))), k)
    {
      assert Owned(s, k);
      CoveredFree(bs, IndexOf(bs, b), k);
    }
    CoveredFree(bs, IndexOf(bs, b), f);
  }

  lemma EndInside(s: Shared, base: nat, i: nat)
    requires Within(s, base) && i + 1 < |s.heap.blocks|
    ensures base <= End(s.heap.blocks[i]) < s.heap.brk
  {
    assert End(s.heap.blocks[i]) <= s.heap.blocks[i + 1].addr < End(s.heap.blocks[i + 1]);
  }

  /** Once swallowed, some foreign byte stays in a block: blocks only split or extend, and a
      merge that shortens the list's reach has a lower gap to swallow. */
  lemma {:induction false} SwallowedForGood(s: Shared, base: nat, ops: seq<SharedOp>, f: nat)
    requires Within(s, base) && Swallowed(s, base, f) && LegalRun(s, ops)
    ensures Within(Run(s, ops), base) && !Apart(Run(s, ops))
    decreases |ops|
  {
    if ops != [] {
      ExecWithin(s, base, ops[0]);
      var r := Exec(s, ops[0]);
      if Joins(s, ops[0]) {
        JoinKeepsSwallowed(s, base, ops[0], f);
        SwallowedForGood(r, base, ops[1..], f);
      } else {
        var b := ops[0].op.b;
        var e := End(s.heap.blocks[IndexOf(s.heap.blocks, b)]);
        if f < e {
          BadMergeKeepsLower(s, base, b, f);
          SwallowedForGood(r, base, ops[1..], f);
        } else {
          BadMergeSwallows(s, base, b, e);
          SwallowedForGood(r, base, ops[1..], e);
        }
      }
    }
  }

  /** On every run of heap calls and of others' page requests the blocks stay in order on
      the pages taken, and no block holds a foreign byte exactly when every merge of the
      run joined adjacent blocks. Then heap and foreign pages still share out all bytes. */
  lemma {:induction false} ApartIff(s: Shared, base: nat, ops: seq<SharedOp>)
    requires Partitioned(s, base) && LegalRun(s, ops)
    ensures Within(Run(s, ops), base)
    ensures Apart(Run(s, ops)) <==> AllJoin(s, ops)
    ensures AllJoin(s, ops) ==> Partitioned(Run(s, ops), base)
    decreases |ops|
  {
    if ops != [] {
      ExecWithin(s, base, ops[0]);
      var r := Exec(s, ops[0]);
      if Joins(s, ops[0]) {
        JoinKeepsPartition(s, base, ops[0]);
        ApartIff(r, base, ops[1..]);
      } else {
        var b := ops[0].op.b;
        var i := IndexOf(s.heap.blocks, b);
        EndInside(s, base, i);
        BadMergeSwallows(s, base, b, End(s.heap.blocks[i]));
        SwallowedForGood(r, base, ops[1..], End(s.heap.blocks[i]));
      }
    }
  }

  /** Without foreign pages every merge joins: the condition holds on every run. */
  lemma {:induction false} SoleUserJoins(s: Shared, base: nat, ops: seq<SharedOp>)
    requires Tiled(s.heap.blocks, base, s.heap.brk) && LegalRun(s, ops) && ForeignPage !in ops
    ensures AllJoin(s, ops)
    decreases |ops|
  {
    if ops != [] {
      var h := s.heap;
      match ops[0].op {
        case MallocOp(n) => MallocTiledIff(h.blocks, base, h.brk, n);
        case FreeOp(b) => FreeTiled(h.blocks, base, h.brk, IndexOf(h.blocks, b));
        case ShrinkOp(b, n) => SplitTiled(h.blocks, base, h.brk, IndexOf(h.blocks, b), n);
      }
      SoleUserJoins(Exec(s, ops[0]), base, ops[1..]);
    }
  }

  // ----- the input -----

  function NewHeap(base: nat): Shared { Shared(HeapState([], base), {}) }

  function FullBlock(addr: nat): Block { Block(addr, PAGE_PAYLOAD, false) }

  /** Two pages for the heap, one page between them for somebody else, and both blocks
      freed, the later one first. */
  function PageBetween(base: nat): seq<SharedOp> {
    [HeapOp(MallocOp(PAGE_PAYLOAD)), ForeignPage, HeapOp(MallocOp(PAGE_PAYLOAD)),
     HeapOp(FreeOp(FullBlock(base + 2 * PAGE))), HeapOp(FreeOp(FullBlock(base)))]
  }

  lemma TakesFullPage(bs: seq<Block>, brk: nat)
    requires forall i :: 0 <= i < |bs| ==> !bs[i].free
    ensures FirstFit(bs, PAGE_PAYLOAD) == |bs| && Malloc(bs, brk, PAGE_PAYLOAD) == bs + [FullBlock(brk)]
  {
    FirstFitUnique(bs, PAGE_PAYLOAD, |bs|);
  }

  lemma FreesInTurn(x: Block, y: Block)
    requires !x.free && !y.free && x != y
    ensures IndexOf([x, y], x) == 0 && IndexOf([x, y], y) == 1
    ensures Free([x, y], 1) == [x, y.(free := true)]
    ensures Free([x, y.(free := true)], 0) == [Block(x.addr, x.size + HEADER + y.size, true)]
  {
  }

  /** After the run the list is one free block of 8168 bytes in which the other's page lies,
      and the next request of that size is handed all of that page. */
  lemma PageBetweenIsSwallowed(base: nat)
    ensures LegalRun(NewHeap(base), PageBetween(base)) && !AllJoin(NewHeap(base), PageBetween(base))
    ensures var r := Run(NewHeap(base), PageBetween(base));
            && r.heap.blocks == [Block(base, 2 * PAGE - HEADER, true)]
            && r.foreign == PageBytes(base + PAGE)
            && Taken(r.heap.blocks, r.heap.brk, 2 * PAGE - HEADER) == Block(base, 2 * PAGE - HEADER, false)
            && forall k :: k in r.foreign ==> Covers(Taken(r.heap.blocks, r.heap.brk, 2 * PAGE - HEADER), k)
  {
    PageBetweenRun(base);
    TakesBoth(base, base + 3 * PAGE);
  }

  lemma TakesBoth(base: nat, brk: nat)
    ensures var t := Taken([Block(base, 2 * PAGE - HEADER, true)], brk, 2 * PAGE - HEADER);
            t == Block(base, 2 * PAGE - HEADER, false) && forall k :: k in PageBytes(base + PAGE) ==> Covers(t, k)
  {
  }

  lemma PageBetweenRun(base: nat)
    ensures LegalRun(NewHeap(base), PageBetween(base)) && !AllJoin(NewHeap(base), PageBetween(base))
    ensures Run(NewHeap(base), PageBetween(base)) ==
            Shared(HeapState([Block(base, 2 * PAGE - HEADER, true)], base + 3 * PAGE), PageBytes(base + PAGE))
  {
    var x, y := FullBlock(base), FullBlock(base + 2 * PAGE);
    var malloc, freeX, freeY := HeapOp(MallocOp(PAGE_PAYLOAD)), HeapOp(FreeOp(x)), HeapOp(FreeOp(y));
    var s1 := Shared(HeapState([x], base + PAGE), {});
    var s2 := Shared(HeapState([x], base + 2 * PAGE), PageBytes(base + PAGE));
    TakesFullPage([], base);
    LastThree(base, x, y);
    Step(s1, ForeignPage, [malloc, freeY, freeX], s2);
    Step(NewHeap(base), malloc, [ForeignPage, malloc, freeY, freeX], s1);
    assert PageBetween(base) == [malloc] + [ForeignPage, malloc, freeY, freeX];
    assert [ForeignPage, malloc, freeY, freeX] == [ForeignPage] + [malloc, freeY, freeX];
  }

  lemma LastThree(base: nat, x: Block, y: Block)
    requires x == FullBlock(base) && y == FullBlock(base + 2 * PAGE)
    ensures var s2 := Shared(HeapState([x], base + 2 * PAGE), PageBytes(base + PAGE));
            var ops := [HeapOp(MallocOp(PAGE_PAYLOAD)), HeapOp(FreeOp(y)), HeapOp(FreeOp(x))];
            && LegalRun(s2, ops) && !AllJoin(s2, ops)
            && Run(s2, ops) == s2.(heap := HeapState([Block(base, 2 * PAGE - HEADER, true)], base + 3 * PAGE))
  {
    var malloc, freeX, freeY := HeapOp(MallocOp(PAGE_PAYLOAD)), HeapOp(FreeOp(x)), HeapOp(FreeOp(y));
    var s2 := Shared(HeapState([x], base + 2 * PAGE), PageBytes(base + PAGE));
    var s3 := s2.(heap := HeapState([x, y], base + 3 * PAGE));
    var s4 := s2.(heap := HeapState([x, y.(free := true)], base + 3 * PAGE));
    var s5 := s2.(heap := HeapState([Block(base, 2 * PAGE - HEADER, true)], base + 3 * PAGE));
    TakesFullPage([x], base + 2 * PAGE);
    FreesInTurn(x, y);
    Step(s4, freeX, [], s5);
    Step(s3, freeY, [freeX], s4);
    Step(s2, malloc, [freeY, freeX], s3);
    assert [malloc, freeY, freeX] == [malloc] + [freeY, freeX] && [freeY, freeX] == [freeY] + [freeX];
    assert [freeX] == [freeX] + [];
  }

  lemma Step(s: Shared, op: SharedOp, rest: seq<SharedOp>, s': Shared)
    requires Legal(s, op) && Exec(s, op) == s' && LegalRun(s', rest)
    ensures LegalRun(s, [op] + rest) && Run(s, [op] + rest) == Run(s', rest)
    ensures AllJoin(s, [op] + rest) == (Joins(s, op) && AllJoin(s', rest))
  {
    assert ([op] + rest)[1..] == rest;
  }
}
