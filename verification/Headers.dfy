/** The intrusive list of src/impl/kernel/stdlib.c: where the blocks of a sequence are
    written in memory. */
module Headers {
  import opened Memory
  import opened Blocks

  function Read32(mem: seq<byte>, a: nat): nat
    requires a + 4 <= |mem|
  {
    FromLE(mem[a..a + 4])
  }

  function SizeAt(mem: seq<byte>, a: nat): uint64
    requires a + HEADER <= |mem|
  {
    Read64(mem, a)
  }

  predicate FreeAt(mem: seq<byte>, a: nat)
    requires a + HEADER <= |mem|
  {
    Read32(mem, a + 8) != 0
  }

  function NextAt(mem: seq<byte>, a: nat): uint64
    requires a + HEADER <= |mem|
  {
    Read64(mem, a + 16)
  }

  ghost predicate HeaderIs(mem: seq<byte>, b: Block, next: nat) {
    && b.addr + HEADER <= |mem|
    && SizeAt(mem, b.addr) == b.size && FreeAt(mem, b.addr) == b.free && NextAt(mem, b.addr) == next
  }

  /** The address the i-th link holds. */
  function AddrAt(bs: seq<Block>, i: nat): nat {
    if i < |bs| then bs[i].addr else 0
  }

  /** What the link of block i holds. */
  function LinkOf(bs: seq<Block>, i: nat): nat { AddrAt(bs, i + 1) }

  /** A list as a relation h between blocks and the links in their headers. */
  ghost predicate Linked(h: (Block, nat) -> bool, bs: seq<Block>) {
    forall i {:trigger LinkOf(bs, i)} :: 0 <= i < |bs| ==> h(bs[i], LinkOf(bs, i))
  }

  ghost function HeadersIn(mem: seq<byte>): (Block, nat) -> bool {
    (b: Block, next: nat) => b.addr > 0 && HeaderIs(mem, b, next)
  }

  ghost predicate Listed(mem: seq<byte>, bs: seq<Block>) {
    Linked(HeadersIn(mem), bs)
  }

  /** Bytes outside the header at a agree. */
  ghost predicate OnlyHeader(mem: seq<byte>, mem': seq<byte>, a: nat) {
    |mem'| == |mem| && forall k :: 0 <= k < |mem| && !(a <= k < a + HEADER) ==> mem'[k] == mem[k]
  }

  lemma HeaderKept(mem: seq<byte>, mem': seq<byte>, b: Block, next: nat)
    requires HeaderIs(mem, b, next) && |mem'| == |mem|
    requires forall k :: b.addr <= k < b.addr + HEADER ==> mem'[k] == mem[k]
    ensures HeaderIs(mem', b, next)
  {
    ReadUnaffected(mem, mem', b.addr);
    ReadUnaffected(mem, mem', b.addr + 16);
    assert mem'[b.addr + 8..b.addr + 12] == mem[b.addr + 8..b.addr + 12];
  }

  // ----- field stores -----

  lemma SizeStored(mem: seq<byte>, b: Block, next: nat, x: uint64)
    requires HeaderIs(mem, b, next)
    ensures var mem' := Patch(mem, b.addr, ToLE(x, 8));
            OnlyHeader(mem, mem', b.addr) && HeaderIs(mem', b.(size := x), next)
  {
    var mem' := Patch(mem, b.addr, ToLE(x, 8));
    ReadOfWrite(mem, b.addr, x);
    ReadUnaffected(mem, mem', b.addr + 16);
    assert mem'[b.addr + 8..b.addr + 12] == mem[b.addr + 8..b.addr + 12];
  }

  lemma NextStored(mem: seq<byte>, b: Block, next: nat, x: uint64)
    requires HeaderIs(mem, b, next)
    ensures var mem' := Patch(mem, b.addr + 16, ToLE(x, 8));
            OnlyHeader(mem, mem', b.addr) && HeaderIs(mem', b, x)
  {
    var mem' := Patch(mem, b.addr + 16, ToLE(x, 8));
    ReadOfWrite(mem, b.addr + 16, x);
    ReadUnaffected(mem, mem', b.addr);
    assert mem'[b.addr + 8..b.addr + 12] == mem[b.addr + 8..b.addr + 12];
  }

  lemma FreeStored(mem: seq<byte>, b: Block, next: nat, f: bool)
    requires HeaderIs(mem, b, next)
    ensures var mem' := Patch(mem, b.addr + 8, ToLE(if f then 1 else 0, 4));
            OnlyHeader(mem, mem', b.addr) && HeaderIs(mem', b.(free := f), next)
  {
    var x := if f then 1 else 0;
    var mem' := Patch(mem, b.addr + 8, ToLE(x, 4));
    assert mem'[b.addr + 8..b.addr + 12] == ToLE(x, 4);
    Pow256Of8();
    FromLEOfToLE(x, 4);
    ReadUnaffected(mem, mem', b.addr);
    ReadUnaffected(mem, mem', b.addr + 16);
  }

  // ----- the list after a change of headers -----

  /** Every header but block i's is as before. */
  ghost predicate HeadersElse(mem: seq<byte>, mem': seq<byte>, bs: seq<Block>, i: nat) {
    |mem'| == |mem| &&
    forall j :: 0 <= j < |bs| && j != i ==>
                  forall k :: bs[j].addr <= k < bs[j].addr + HEADER && k < |mem| ==> mem'[k] == mem[k]
  }

  ghost predicate LinksElse(h: (Block, nat) -> bool, bs: seq<Block>, i: nat) {
    forall j {:trigger LinkOf(bs, j)} :: 0 <= j < |bs| && j != i ==> h(bs[j], LinkOf(bs, j))
  }

  lemma OthersKept(mem: seq<byte>, mem': seq<byte>, bs: seq<Block>, i: nat)
    requires Listed(mem, bs) && HeadersElse(mem, mem', bs, i)
    ensures LinksElse(HeadersIn(mem'), bs, i)
  {
    forall j | 0 <= j < |bs| && j != i
      ensures HeadersIn(mem')(bs[j], LinkOf(bs, j))
    {
      assert HeadersIn(mem)(bs[j], LinkOf(bs, j));
      HeaderKept(mem, mem', bs[j], LinkOf(bs, j));
    }
  }

  lemma LinkedOfMark(h: (Block, nat) -> bool, bs: seq<Block>, i: nat, f: bool)
    requires i < |bs| && LinksElse(h, bs, i) && h(bs[i].(free := f), LinkOf(bs, i))
    ensures Linked(h, bs[i := bs[i].(free := f)])
  {
    var s := bs[i := bs[i].(free := f)];
    forall j | 0 <= j < |s|
      ensures h(s[j], LinkOf(s, j))
    {
      assert LinkOf(s, j) == LinkOf(bs, j);
    }
  }

  lemma LinkedOfSplit(h: (Block, nat) -> bool, bs: seq<Block>, i: nat, n: nat)
    requires i < |bs| && Splits(bs[i], n) && LinksElse(h, bs, i)
    requires h(bs[i].(size := n), Rest(bs[i], n).addr) && h(Rest(bs[i], n), LinkOf(bs, i))
    ensures Linked(h, Split(bs, i, n))
  {
    var s := Split(bs, i, n);
    assert forall j :: 0 <= j < |s| ==>
      s[j] == if j < i then bs[j] else if j == i then bs[i].(size := n) else if j == i + 1 then Rest(bs[i], n) else bs[j - 1];
    forall j | 0 <= j < |s|
      ensures h(s[j], LinkOf(s, j))
    {
      if j < i {
        assert h(bs[j], LinkOf(bs, j));
      } else if j > i + 1 {
        assert h(bs[j - 1], LinkOf(bs, j - 1));
      }
    }
  }

  lemma LinkedOfMerge(h: (Block, nat) -> bool, bs: seq<Block>, i: nat)
    requires i < |bs| && Merges(bs, i) && LinksElse(h, bs, i) && h(Free(bs, i)[i], LinkOf(bs, i + 1))
    ensures Linked(h, Free(bs, i))
  {
    var s := Free(bs, i);
    assert forall j :: 0 <= j < |s| && j != i ==> s[j] == if j < i then bs[j] else bs[j + 1];
    forall j | 0 <= j < |s|
      ensures h(s[j], LinkOf(s, j))
    {
      if j < i {
        assert h(bs[j], LinkOf(bs, j));
      } else if j > i {
        assert h(bs[j + 1], LinkOf(bs, j + 1));
      }
    }
  }

  /** A new last block, to which the old last one, if any, links. */
  lemma LinkedOfAppend(h: (Block, nat) -> bool, bs: seq<Block>, b: Block)
    requires LinksElse(h, bs, if bs == [] then 0 else |bs| - 1)
    requires bs != [] ==> h(bs[|bs| - 1], b.addr)
    requires h(b, 0)
    ensures Linked(h, bs + [b])
  {
    var s := bs + [b];
    forall j | 0 <= j < |s|
      ensures h(s[j], LinkOf(s, j))
    {
      if j < |bs| - 1 {
        assert h(bs[j], LinkOf(bs, j));
      }
    }
  }
}
