/** The block list of src/impl/kernel/stdlib.c as a sequence, and what its operations do
    to it. A block is a 24-byte header followed by its payload. */
module Blocks {
  import Memory

  const HEADER: nat := 24
  const PAGE: nat := Memory.PAGE_SIZE
  /** Payload of one fresh page. */
  const PAGE_PAYLOAD: nat := 4072

  datatype Block = Block(addr: nat, size: nat, free: bool)

  function End(b: Block): nat { b.addr + HEADER + b.size }

  /** The list is address-ordered, each block ends where the next begins, and together
      they fill [base, brk). */
  ghost predicate Tiled(bs: seq<Block>, base: nat, brk: nat) {
    if bs == [] then base == brk
    else
      && bs[0].addr == base && End(bs[|bs| - 1]) == brk
      && forall i :: 0 <= i < |bs| - 1 ==> End(bs[i]) == bs[i + 1].addr
  }

  ghost predicate Ordered(bs: seq<Block>) {
    forall i, j :: 0 <= i < j < |bs| ==> End(bs[i]) <= bs[j].addr
  }

  function TotalSize(bs: seq<Block>): nat {
    if bs == [] then 0 else HEADER + bs[0].size + TotalSize(bs[1..])
  }

  predicate Fits(b: Block, n: nat) { b.free && b.size >= n }

  function FirstFit(bs: seq<Block>, n: nat): (i: nat)
    ensures i <= |bs|
    ensures i < |bs| ==> Fits(bs[i], n)
    ensures forall j :: 0 <= j < i ==> !Fits(bs[j], n)
  {
    if bs == [] || Fits(bs[0], n) then 0 else 1 + FirstFit(bs[1..], n)
  }

  lemma {:induction false} FirstFitUnique(bs: seq<Block>, n: nat, i: nat)
    requires i <= |bs| && (i < |bs| ==> Fits(bs[i], n))
    requires forall j :: 0 <= j < i ==> !Fits(bs[j], n)
    ensures FirstFit(bs, n) == i
  {
    if i > 0 {
      assert !Fits(bs[0], n);
      FirstFitUnique(bs[1..], n, i - 1);
    }
  }

  predicate Splits(b: Block, n: nat) { b.size >= n + HEADER + 32 }

  function Rest(b: Block, n: nat): Block
    requires Splits(b, n)
  {
    Block(b.addr + HEADER + n, b.size - n - HEADER, true)
  }

  /** split_block on block i. */
  function Split(bs: seq<Block>, i: nat, n: nat): seq<Block>
    requires i < |bs|
  {
    if Splits(bs[i], n) then bs[..i] + [bs[i].(size := n), Rest(bs[i], n)] + bs[i + 1..] else bs
  }

  /** Split block i and mark it used. */
  function Take(bs: seq<Block>, i: nat, n: nat): seq<Block>
    requires i < |bs|
  {
    var s := Split(bs, i, n);
    s[i := s[i].(free := false)]
  }

  function FreshBlock(brk: nat, n: nat): Block {
    Block(brk, if n + HEADER < PAGE then PAGE_PAYLOAD else n, true)
  }

  /** malloc of an aligned size n: first fit, or a block on a fresh page. */
  function Malloc(bs: seq<Block>, brk: nat, n: nat): seq<Block> {
    var i := FirstFit(bs, n);
    if i < |bs| then Take(bs, i, n) else Take(bs + [FreshBlock(brk, n)], |bs|, n)
  }

  function Taken(bs: seq<Block>, brk: nat, n: nat): Block {
    var i := FirstFit(bs, n);
    var b := if i < |bs| then bs[i] else FreshBlock(brk, n);
    if Splits(b, n) then Block(b.addr, n, false) else b.(free := false)
  }

  function PagesTaken(bs: seq<Block>, n: nat): nat {
    if FirstFit(bs, n) < |bs| then 0 else 1
  }

  predicate Merges(bs: seq<Block>, i: nat) { i + 1 < |bs| && bs[i + 1].free }

  /** free of block i. */
  function Free(bs: seq<Block>, i: nat): seq<Block>
    requires i < |bs|
  {
    if Merges(bs, i)
    then bs[..i] + [Block(bs[i].addr, bs[i].size + HEADER + bs[i + 1].size, true)] + bs[i + 2..]
    else bs[i := bs[i].(free := true)]
  }

  function Live(bs: seq<Block>): set<Block> { set b | b in bs && !b.free }

  // ----- tiling -----

  lemma {:induction false} TiledOrder(bs: seq<Block>, base: nat, brk: nat, i: nat, j: nat)
    requires Tiled(bs, base, brk) && i < j < |bs|
    ensures End(bs[i]) <= bs[j].addr
  {
    if i + 1 < j {
      TiledOrder(bs, base, brk, i, j - 1);
    }
  }

  lemma TiledIsOrdered(bs: seq<Block>, base: nat, brk: nat)
    requires Tiled(bs, base, brk)
    ensures Ordered(bs)
    ensures forall i :: 0 <= i < |bs| ==> base <= bs[i].addr && End(bs[i]) <= brk
  {
    forall i, j | 0 <= i < j < |bs|
      ensures End(bs[i]) <= bs[j].addr
    {
      TiledOrder(bs, base, brk, i, j);
    }
  }

  /** Payloads of different blocks share no byte. */
  lemma PayloadsDisjoint(bs: seq<Block>, base: nat, brk: nat, b: Block, c: Block, k: nat)
    requires Tiled(bs, base, brk) && b in bs && c in bs && b != c
    requires b.addr + HEADER <= k < End(b)
    ensures !(c.addr <= k < End(c))
  {
    var i :| 0 <= i < |bs| && bs[i] == b;
    var j :| 0 <= j < |bs| && bs[j] == c;
    TiledIsOrdered(bs, base, brk);
  }

  /** Headers and payloads account for every byte of the pages taken. */
  lemma {:induction false} TiledSum(bs: seq<Block>, base: nat, brk: nat)
    requires Tiled(bs, base, brk)
    ensures base + TotalSize(bs) == brk
  {
    if bs != [] {
      TiledSum(bs[1..], End(bs[0]), brk);
    }
  }

  lemma SplitTiled(bs: seq<Block>, base: nat, brk: nat, i: nat, n: nat)
    requires Tiled(bs, base, brk) && i < |bs|
    ensures Tiled(Split(bs, i, n), base, brk)
  {
    var s := Split(bs, i, n);
    if Splits(bs[i], n) {
      forall k | 0 <= k < |s| - 1
        ensures End(s[k]) == s[k + 1].addr
      {
        if k > i {
          assert s[k] == if k == i + 1 then Rest(bs[i], n) else bs[k - 1];
          assert s[k + 1] == bs[k];
        }
      }
    }
  }

  lemma SplitOrdered(bs: seq<Block>, i: nat, n: nat)
    requires Ordered(bs) && i < |bs|
    ensures Ordered(Split(bs, i, n))
  {
    var s := Split(bs, i, n);
    if Splits(bs[i], n) {
      assert forall k :: 0 <= k < |s| ==>
        s[k] == if k < i then bs[k] else if k == i then bs[i].(size := n)
                else if k == i + 1 then Rest(bs[i], n) else bs[k - 1];
    }
  }

  lemma FlagTiled(bs: seq<Block>, base: nat, brk: nat, i: nat, f: bool)
    requires Tiled(bs, base, brk) && i < |bs|
    ensures Tiled(bs[i := bs[i].(free := f)], base, brk)
  {
  }

  lemma TakeTiled(bs: seq<Block>, base: nat, brk: nat, i: nat, n: nat)
    requires Tiled(bs, base, brk) && i < |bs|
    ensures Tiled(Take(bs, i, n), base, brk)
  {
    SplitTiled(bs, base, brk, i, n);
    FlagTiled(Split(bs, i, n), base, brk, i, false);
  }

  lemma FreeTiled(bs: seq<Block>, base: nat, brk: nat, i: nat)
    requires Tiled(bs, base, brk) && i < |bs|
    ensures Tiled(Free(bs, i), base, brk)
  {
    var s := Free(bs, i);
    if Merges(bs, i) {
      forall k | 0 <= k < |s| - 1
        ensures End(s[k]) == s[k + 1].addr
      {
        assert s[k] == if k < i then bs[k] else if k == i then s[i] else bs[k + 1];
        assert s[k + 1] == if k + 1 < i then bs[k + 1] else if k + 1 == i then s[i] else bs[k + 2];
      }
    }
  }

  lemma FreshTiled(bs: seq<Block>, base: nat, brk: nat, n: nat)
    requires Tiled(bs, base, brk)
    ensures Tiled(bs + [FreshBlock(brk, n)], base, brk + PAGE) <==> n <= PAGE_PAYLOAD
  {
    var s := bs + [FreshBlock(brk, n)];
    assert End(s[|s| - 1]) == brk + PAGE <==> n <= PAGE_PAYLOAD;
    if bs != [] {
      assert s[|bs| - 1] == bs[|bs| - 1];
    }
  }

  /** Where the list ends after malloc: past the page taken, if the request is larger. */
  function TopAfter(bs: seq<Block>, brk: nat, n: nat): nat {
    if FirstFit(bs, n) < |bs| then brk else End(FreshBlock(brk, n))
  }

  /** malloc always leaves a list without gaps. */
  lemma MallocTiledTo(bs: seq<Block>, base: nat, brk: nat, n: nat)
    requires Tiled(bs, base, brk)
    ensures Tiled(Malloc(bs, brk, n), base, TopAfter(bs, brk, n))
  {
    var i := FirstFit(bs, n);
    if i < |bs| {
      TakeTiled(bs, base, brk, i, n);
    } else {
      var s := bs + [FreshBlock(brk, n)];
      if bs != [] {
        assert s[|bs| - 1] == bs[|bs| - 1];
      }
      TakeTiled(s, base, End(FreshBlock(brk, n)), |bs|, n);
    }
  }

  /** malloc keeps the heap tiled over the pages it owns exactly when the request finds
      a fit or fits one page: it takes one page, however large the request. */
  lemma MallocTiledIff(bs: seq<Block>, base: nat, brk: nat, n: nat)
    requires Tiled(bs, base, brk)
    ensures Tiled(Malloc(bs, brk, n), base, brk + PagesTaken(bs, n) * PAGE)
       <==> FirstFit(bs, n) < |bs| || n <= PAGE_PAYLOAD
  {
    var i := FirstFit(bs, n);
    if i < |bs| {
      TakeTiled(bs, base, brk, i, n);
    } else {
      var s := bs + [FreshBlock(brk, n)];
      FreshTiled(bs, base, brk, n);
      if n <= PAGE_PAYLOAD {
        TakeTiled(s, base, brk + PAGE, |bs|, n);
      } else {
        assert !Splits(s[|bs|], n);
        var t := Malloc(bs, brk, n);
        assert End(t[|t| - 1]) == End(s[|s| - 1]) > brk + PAGE;
      }
    }
  }

  lemma FreshTaken(bs: seq<Block>, brk: nat, n: nat)
    requires FirstFit(bs, n) == |bs|
    ensures Taken(bs, brk, n) in Malloc(bs, brk, n) && !Taken(bs, brk, n).free
    ensures forall b :: b in bs ==> b in Malloc(bs, brk, n)
  {
    var t := Malloc(bs, brk, n);
    assert Taken(bs, brk, n) == t[|bs|];
    assert forall i :: 0 <= i < |bs| ==> t[i] == bs[i];
  }

  /** A request that neither fits nor fits one page gets a block that reaches beyond its
      page: as long as it is in use, the next request that takes a page is given a block
      inside its payload. */
  lemma OversizeOverlapsNext(bs: seq<Block>, brk: nat, n: nat, later: seq<Block>, m: nat)
    requires FirstFit(bs, n) == |bs| && n > PAGE_PAYLOAD
    requires Taken(bs, brk, n) in later && FirstFit(later, m) == |later|
    ensures Taken(bs, brk, n) in Malloc(bs, brk, n)
    ensures var x, y := Taken(bs, brk, n), Taken(later, brk + PAGE, m);
            && x in Live(Malloc(later, brk + PAGE, m)) && y in Live(Malloc(later, brk + PAGE, m))
            && x.addr + HEADER <= y.addr < x.addr + HEADER + n
  {
    FreshTaken(bs, brk, n);
    FreshTaken(later, brk + PAGE, m);
  }

  /** The first fit is the lowest-addressed one. */
  lemma FirstFitIsLowest(bs: seq<Block>, base: nat, brk: nat, n: nat, b: Block)
    requires Tiled(bs, base, brk) && b in bs && Fits(b, n)
    ensures FirstFit(bs, n) < |bs| && bs[FirstFit(bs, n)].addr <= b.addr
  {
    var j :| 0 <= j < |bs| && bs[j] == b;
    TiledIsOrdered(bs, base, brk);
  }

  // ----- live blocks -----

  lemma LiveOfConcat(a: seq<Block>, b: seq<Block>)
    ensures Live(a + b) == Live(a) + Live(b)
  {
  }

  function LiveOf(b: Block): set<Block> { if b.free then {} else {b} }

  lemma LiveOfOne(b: Block)
    ensures Live([b]) == LiveOf(b)
  {
    assert b in [b];
  }

  /** Replacing k blocks in the middle. */
  lemma LiveOfSplice(a: seq<Block>, old_: seq<Block>, new_: seq<Block>, c: seq<Block>)
    requires Ordered(a + old_ + c)
    ensures Live(a + new_ + c) == (Live(a + old_ + c) - Live(old_)) + Live(new_)
  {
    LiveOfConcat(a, old_);
    LiveOfConcat(a + old_, c);
    LiveOfConcat(a, new_);
    LiveOfConcat(a + new_, c);
    OrderedPartsDisjoint(a, old_, c);
  }

  lemma OrderedPartsDisjoint(a: seq<Block>, m: seq<Block>, c: seq<Block>)
    requires Ordered(a + m + c)
    ensures forall x, y :: x in a && y in m ==> x != y
    ensures forall x, y :: x in m && y in c ==> x != y
  {
    var s := a + m + c;
    forall x, y | x in a && y in m
      ensures x != y
    {
      var i :| 0 <= i < |a| && a[i] == x;
      var j :| 0 <= j < |m| && m[j] == y;
      assert s[i] == x && s[|a| + j] == y;
    }
    forall x, y | x in m && y in c
      ensures x != y
    {
      var i :| 0 <= i < |m| && m[i] == x;
      var j :| 0 <= j < |c| && c[j] == y;
      assert s[|a| + i] == x && s[|a| + |m| + j] == y;
    }
  }

  lemma LiveOfTake(bs: seq<Block>, i: nat, n: nat)
    requires Ordered(bs) && i < |bs|
    ensures var b := Take(bs, i, n)[i];
            Live(Take(bs, i, n)) == (Live(bs) - {bs[i]}) + {b} && !b.free
  {
    var b := Take(bs, i, n)[i];
    LiveOfOne(b);
    if Splits(bs[i], n) {
      var rest := Rest(bs[i], n);
      assert Take(bs, i, n) == bs[..i] + [b, rest] + bs[i + 1..];
      LiveOfReplaced(bs, i, [b, rest]);
      LiveOfTwo(b, rest);
      assert LiveOf(rest) == {};
    } else {
      assert Take(bs, i, n) == bs[..i] + [b] + bs[i + 1..];
      LiveOfReplaced(bs, i, [b]);
    }
    assert LiveOf(bs[i]) == {} ==> bs[i] !in Live(bs) by { LiveIsUsed(bs, bs[i]); }
  }

  lemma LiveIsUsed(bs: seq<Block>, b: Block)
    ensures b.free ==> b !in Live(bs)
  {
  }

  lemma LiveOfTwo(b: Block, c: Block)
    ensures Live([b, c]) == LiveOf(b) + LiveOf(c)
  {
    assert [b, c] == [b] + [c];
    LiveOfConcat([b], [c]);
    LiveOfOne(b);
    LiveOfOne(c);
  }

  /** Replacing one block. */
  lemma LiveOfReplaced(bs: seq<Block>, i: nat, new_: seq<Block>)
    requires Ordered(bs) && i < |bs|
    ensures Live(bs[..i] + new_ + bs[i + 1..]) == (Live(bs) - LiveOf(bs[i])) + Live(new_)
  {
    assert bs == bs[..i] + [bs[i]] + bs[i + 1..];
    LiveOfSplice(bs[..i], [bs[i]], new_, bs[i + 1..]);
    LiveOfOne(bs[i]);
  }

  lemma LiveOfFresh(bs: seq<Block>, base: nat, brk: nat, n: nat)
    requires Tiled(bs, base, brk)
    ensures Ordered(bs + [FreshBlock(brk, n)]) && Live(bs + [FreshBlock(brk, n)]) == Live(bs)
  {
    TiledIsOrdered(bs, base, brk);
    LiveOfConcat(bs, [FreshBlock(brk, n)]);
    LiveOfOne(FreshBlock(brk, n));
  }

  lemma TakenIsTaken(bs: seq<Block>, brk: nat, n: nat)
    ensures var i := FirstFit(bs, n);
            Taken(bs, brk, n) == Malloc(bs, brk, n)[i]
  {
  }

  /** No live block starts where a free one does. */
  lemma FreeBlockAddress(bs: seq<Block>, i: nat, b: Block)
    requires Ordered(bs) && i < |bs| && bs[i].free && b.addr == bs[i].addr
    ensures b !in Live(bs)
  {
    assert forall k :: 0 <= k < |bs| && k != i ==> bs[k].addr != b.addr;
  }

  /** malloc adds one live block, long enough, and keeps the others. */
  lemma MallocLive(bs: seq<Block>, base: nat, brk: nat, n: nat)
    requires Tiled(bs, base, brk)
    ensures Live(Malloc(bs, brk, n)) == Live(bs) + {Taken(bs, brk, n)}
    ensures Taken(bs, brk, n) !in Live(bs) && Taken(bs, brk, n).size >= n
  {
    TiledIsOrdered(bs, base, brk);
    TakenIsTaken(bs, brk, n);
    LiveOfFresh(bs, base, brk, n);
    var i := FirstFit(bs, n);
    if i < |bs| {
      LiveOfTake(bs, i, n);
      FreeBlockAddress(bs, i, Taken(bs, brk, n));
      FreeBlockAddress(bs, i, bs[i]);
    } else {
      var s := bs + [FreshBlock(brk, n)];
      LiveOfTake(s, i, n);
      FreeBlockAddress(s, i, Taken(bs, brk, n));
      FreeBlockAddress(s, i, s[i]);
    }
  }

  /** free retires one block, merged forward or not, and keeps the others. */
  lemma FreeLive(bs: seq<Block>, base: nat, brk: nat, i: nat)
    requires Tiled(bs, base, brk) && i < |bs|
    ensures Live(Free(bs, i)) == Live(bs) - {bs[i]}
  {
    TiledIsOrdered(bs, base, brk);
    if bs[i].free {
      FreeBlockAddress(bs, i, bs[i]);
    }
    if Merges(bs, i) {
      LiveOfMerge(bs, i);
    } else {
      LiveOfMark(bs, i);
    }
  }

  lemma LiveOfMark(bs: seq<Block>, i: nat)
    requires Ordered(bs) && i < |bs|
    ensures Live(bs[i := bs[i].(free := true)]) == Live(bs) - LiveOf(bs[i])
  {
    var b := bs[i].(free := true);
    LiveOfOne(bs[i]);
    LiveOfOne(b);
    assert bs == bs[..i] + [bs[i]] + bs[i + 1..];
    assert bs[i := b] == bs[..i] + [b] + bs[i + 1..];
    LiveOfSplice(bs[..i], [bs[i]], [b], bs[i + 1..]);
  }

  lemma LiveOfMerge(bs: seq<Block>, i: nat)
    requires Ordered(bs) && i < |bs| && Merges(bs, i)
    ensures Live(Free(bs, i)) == Live(bs) - LiveOf(bs[i])
  {
    var b := Free(bs, i)[i];
    LiveOfOne(bs[i]);
    LiveOfOne(bs[i + 1]);
    LiveOfOne(b);
    assert bs == bs[..i] + [bs[i], bs[i + 1]] + bs[i + 2..];
    assert [bs[i], bs[i + 1]] == [bs[i]] + [bs[i + 1]];
    LiveOfConcat([bs[i]], [bs[i + 1]]);
    LiveOfSplice(bs[..i], [bs[i], bs[i + 1]], [b], bs[i + 2..]);
  }

  /** The in-place branch of realloc shortens one live block and keeps the others. */
  lemma ShrinkLive(bs: seq<Block>, base: nat, brk: nat, i: nat, n: nat)
    requires Tiled(bs, base, brk) && i < |bs| && !bs[i].free && bs[i].size >= n
    ensures Live(Split(bs, i, n)) == (Live(bs) - {bs[i]}) + {Split(bs, i, n)[i]}
    ensures var b := Split(bs, i, n)[i]; b.addr == bs[i].addr && n <= b.size <= bs[i].size
  {
    TiledIsOrdered(bs, base, brk);
    LiveOfTake(bs, i, n);
    assert Take(bs, i, n) == Split(bs, i, n);
  }

  predicate Covers(b: Block, k: nat) { b.addr <= k < End(b) }

  /** free looks at list order only: the merged block is exactly the two old ones when
      they are adjacent; when another user of the page allocator got the page between
      them, it swallows foreign bytes. */
  lemma MergeExactIff(bs: seq<Block>, i: nat)
    requires Ordered(bs) && Merges(bs, i)
    ensures (forall k :: Covers(Free(bs, i)[i], k) <==> Covers(bs[i], k) || Covers(bs[i + 1], k))
       <==> End(bs[i]) == bs[i + 1].addr
  {
    if End(bs[i]) != bs[i + 1].addr {
      assert Covers(Free(bs, i)[i], End(bs[i])) && !Covers(bs[i], End(bs[i])) && !Covers(bs[i + 1], End(bs[i]));
    }
  }

  // ----- the lists, block by block -----

  lemma SplitPlaces(bs: seq<Block>, i: nat, n: nat)
    requires i < |bs|
    ensures var c, r, cut := bs[i], Split(bs, i, n), bs[i].size >= n + 56;
            && |r| == |bs| + (if cut then 1 else 0)
            && r[i] == Block(c.addr, if cut then n else c.size, c.free)
            && (cut ==> r[i + 1] == Block(c.addr + 24 + n, c.size - n - 24, true))
  {
  }

  lemma SplitOthers(bs: seq<Block>, i: nat, n: nat, j: nat)
    requires i < |bs| && j < |bs| && j != i
    ensures var r, cut := Split(bs, i, n), bs[i].size >= n + 56;
            if j < i then r[j] == bs[j]
            else (if cut then j + 1 else j) < |r| && r[if cut then j + 1 else j] == bs[j]
  {
  }

  /** The in-place branch of realloc: of at least 56 bytes more than asked for, all but the n
      bytes and a header become a free block behind; else nothing changes. */
  lemma SplitExactly(bs: seq<Block>, i: nat, n: nat)
    requires i < |bs|
    ensures var c, r, cut := bs[i], Split(bs, i, n), bs[i].size >= n + 56;
            && |r| == |bs| + (if cut then 1 else 0)
            && r[i] == Block(c.addr, if cut then n else c.size, c.free)
            && (cut ==> r[i + 1] == Block(c.addr + 24 + n, c.size - n - 24, true))
            && (forall j :: 0 <= j < i ==> r[j] == bs[j])
            && (forall j :: i < j < |bs| ==> r[if cut then j + 1 else j] == bs[j])
  {
    SplitPlaces(bs, i, n);
    var r, cut := Split(bs, i, n), bs[i].size >= n + 56;
    forall j | 0 <= j < i
      ensures r[j] == bs[j]
    {
      SplitOthers(bs, i, n, j);
    }
    forall j | i < j < |bs|
      ensures (if cut then j + 1 else j) < |r| && r[if cut then j + 1 else j] == bs[j]
    {
      SplitOthers(bs, i, n, j);
    }
  }

  /** malloc takes the first free block c of at least n bytes, the i-th, or else one behind the
      last on a fresh page, of 4072 bytes, or of n if they are more. It is cut exactly if it has
      at least 56 bytes more than asked for; every other block stays. */
  lemma MallocExactly(bs: seq<Block>, brk: nat, n: nat, i: nat, c: Block)
    requires i <= |bs| && forall j :: 0 <= j < i ==> !(bs[j].free && bs[j].size >= n)
    requires if i < |bs| then c == bs[i] && c.free && c.size >= n
             else c == Block(brk, if n <= 4072 then 4072 else n, true)
    ensures var r, cut, size := Malloc(bs, brk, n), c.size >= n + 56, if i < |bs| then |bs| else |bs| + 1;
            && |r| == size + (if cut then 1 else 0)
            && r[i] == Block(c.addr, if cut then n else c.size, false)
            && (cut ==> r[i + 1] == Block(c.addr + 24 + n, c.size - n - 24, true))
            && (forall j :: 0 <= j < i ==> r[j] == bs[j])
            && (forall j :: i < j < |bs| ==> r[if cut then j + 1 else j] == bs[j])
    ensures Taken(bs, brk, n) == Malloc(bs, brk, n)[i]
    ensures n <= Taken(bs, brk, n).size < n + 56
  {
    FirstFitUnique(bs, n, i);
    var s := if i < |bs| then bs else bs + [c];
    SplitExactly(s, i, n);
    assert i >= |bs| ==> c == FreshBlock(brk, n);
    TakenIsTaken(bs, brk, n);
  }

  /** Two requests that fit one page with their headers share it: on a new heap the second block
      starts right behind the first, and no second page is taken. */
  lemma TwoFromOnePage(base: nat, n: nat, m: nat)
    requires n + 56 <= 4072 && n + 24 + m <= 4072
    ensures var bs := Malloc([], base, n);
            && Taken([], base, n).addr == base && PagesTaken([], n) == 1
            && Taken(bs, base + 4096, m).addr == base + 24 + n && PagesTaken(bs, m) == 0
  {
    var bs := Malloc([], base, n);
    MallocExactly([], base, n, 0, Block(base, 4072, true));
    MallocExactly(bs, base + 4096, m, 1, bs[1]);
  }

  lemma FreePlace(bs: seq<Block>, i: nat, j: nat)
    requires i < |bs| && j < |Free(bs, i)| && j != i
    ensures Free(bs, i)[j] == bs[if j > i && i + 1 < |bs| && bs[i + 1].free then j + 1 else j]
  {
  }

  /** free joins its block with a free one behind it, and with no other. */
  lemma FreeExactly(bs: seq<Block>, i: nat)
    requires i < |bs|
    ensures var r, joined := Free(bs, i), i + 1 < |bs| && bs[i + 1].free;
            && |r| == |bs| - (if joined then 1 else 0)
            && r[i] == Block(bs[i].addr, bs[i].size + (if joined then 24 + bs[i + 1].size else 0), true)
            && (forall j :: 0 <= j < |r| && j != i ==> r[j] == bs[if j > i && joined then j + 1 else j])
  {
    forall j | 0 <= j < |Free(bs, i)| && j != i
      ensures Free(bs, i)[j] == bs[if j > i && i + 1 < |bs| && bs[i + 1].free then j + 1 else j]
    {
      FreePlace(bs, i, j);
    }
  }

  // ----- every run -----

  datatype Op = MallocOp(n: nat) | FreeOp(b: Block) | ShrinkOp(b: Block, n: nat)

  datatype HeapState = HeapState(blocks: seq<Block>, brk: nat)

  ghost function IndexOf(bs: seq<Block>, b: Block): (i: nat)
    requires b in bs
    ensures i < |bs| && bs[i] == b
  {
    var i :| 0 <= i < |bs| && bs[i] == b;
    i
  }

  ghost predicate Legal(h: HeapState, op: Op) {
    match op
    case MallocOp(n) => FirstFit(h.blocks, n) < |h.blocks| || n <= PAGE_PAYLOAD
    case FreeOp(b) => b in h.blocks && !b.free
    case ShrinkOp(b, n) => b in h.blocks && !b.free && b.size >= n
  }

  ghost function Exec(h: HeapState, op: Op): HeapState
    requires Legal(h, op)
  {
    match op
    case MallocOp(n) => HeapState(Malloc(h.blocks, h.brk, n), h.brk + PagesTaken(h.blocks, n) * PAGE)
    case FreeOp(b) => h.(blocks := Free(h.blocks, IndexOf(h.blocks, b)))
    case ShrinkOp(b, n) => h.(blocks := Split(h.blocks, IndexOf(h.blocks, b), n))
  }

  ghost predicate LegalRun(h: HeapState, ops: seq<Op>)
    decreases |ops|
  {
    ops == [] || (Legal(h, ops[0]) && LegalRun(Exec(h, ops[0]), ops[1..]))
  }

  ghost function Run(h: HeapState, ops: seq<Op>): HeapState
    requires LegalRun(h, ops)
    decreases |ops|
  {
    if ops == [] then h else Run(Exec(h, ops[0]), ops[1..])
  }

  ghost function PagesOfRun(h: HeapState, ops: seq<Op>): nat
    requires LegalRun(h, ops)
    decreases |ops|
  {
    if ops == [] then 0
    else (if ops[0].MallocOp? then PagesTaken(h.blocks, ops[0].n) else 0) + PagesOfRun(Exec(h, ops[0]), ops[1..])
  }

  /** Every interleaving keeps the heap tiled, and its blocks add up to the pages taken. */
  lemma {:induction false} RunKeepsTiling(h: HeapState, base: nat, ops: seq<Op>)
    requires Tiled(h.blocks, base, h.brk) && LegalRun(h, ops)
    ensures var r := Run(h, ops);
            && Tiled(r.blocks, base, r.brk)
            && TotalSize(r.blocks) == TotalSize(h.blocks) + PAGE * PagesOfRun(h, ops)
    decreases |ops|
  {
    TiledSum(h.blocks, base, h.brk);
    if ops != [] {
      match ops[0] {
        case MallocOp(n) => MallocTiledIff(h.blocks, base, h.brk, n);
        case FreeOp(b) => FreeTiled(h.blocks, base, h.brk, IndexOf(h.blocks, b));
        case ShrinkOp(b, n) => SplitTiled(h.blocks, base, h.brk, IndexOf(h.blocks, b), n);
      }
      var r := Exec(h, ops[0]);
      TiledSum(r.blocks, base, r.brk);
      RunKeepsTiling(r, base, ops[1..]);
    }
  }
}
