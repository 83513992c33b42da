/** Byte-addressed physical memory: little-endian words and the two copying
    primitives of src/impl/kernel/string.c. */
module Memory {
  import opened Arithmetic

  type byte = b: int | 0 <= b < 256

  const TWO_64: int := 0x1_0000_0000_0000_0000
  type uint64 = x: int | 0 <= x < TWO_64

  const TWO_32: int := 0x1_0000_0000
  type uint32 = x: int | 0 <= x < TWO_32

  const PAGE_SIZE: nat := 4096

  // ----- little-endian words -----

  function Pow256(n: nat): (p: nat)
    ensures p >= 1
  {
    if n == 0 then 1 else 256 * Pow256(n - 1)
  }

  function FromLE(bs: seq<byte>): nat {
    if bs == [] then 0 else bs[0] + 256 * FromLE(bs[1..])
  }

  function ToLE(x: nat, n: nat): (bs: seq<byte>)
    ensures |bs| == n
  {
    if n == 0 then [] else [x % 256] + ToLE(x / 256, n - 1)
  }

  lemma {:induction false} FromLEBound(bs: seq<byte>)
    ensures FromLE(bs) < Pow256(|bs|)
  {
    if bs != [] {
      FromLEBound(bs[1..]);
    }
  }

  lemma {:induction false} FromLEOfToLE(x: nat, n: nat)
    requires x < Pow256(n)
    ensures FromLE(ToLE(x, n)) == x
  {
    if n > 0 {
      FromLEOfToLE(x / 256, n - 1);
      assert ToLE(x, n)[1..] == ToLE(x / 256, n - 1);
    }
  }

  lemma Pow256Of8()
    ensures Pow256(8) == TWO_64
    ensures Pow256(4) == 0x1_0000_0000
  {
  }

  function Zeros(n: nat): (bs: seq<byte>)
    ensures |bs| == n
  {
    seq(n, _ => 0)
  }

  lemma {:induction false} ToLEOfZero(n: nat)
    ensures ToLE(0, n) == Zeros(n)
  {
    if n > 0 {
      ToLEOfZero(n - 1);
    }
  }

  /** Storing a small number in the low half of a zero word stores the whole word. */
  lemma {:induction false} ToLEPadded(x: nat, n: nat, k: nat)
    requires x < Pow256(n)
    ensures ToLE(x, n + k) == ToLE(x, n) + Zeros(k)
  {
    if n == 0 {
      ToLEOfZero(k);
    } else {
      assert x / 256 < Pow256(n - 1);
      ToLEPadded(x / 256, n - 1, k);
      assert [x % 256] + (ToLE(x / 256, n - 1) + Zeros(k)) == ([x % 256] + ToLE(x / 256, n - 1)) + Zeros(k);
    }
  }

  // ----- reading and patching memory -----

  function Patch(mem: seq<byte>, a: nat, bs: seq<byte>): (r: seq<byte>)
    requires a + |bs| <= |mem|
    ensures |r| == |mem|
    ensures forall k :: 0 <= k < |mem| ==> r[k] == if a <= k < a + |bs| then bs[k - a] else mem[k]
  {
    mem[..a] + bs + mem[a + |bs|..]
  }

  function Read64(mem: seq<byte>, a: nat): (x: uint64)
    requires a + 8 <= |mem|
  {
    FromLEBound(mem[a..a + 8]);
    Pow256Of8();
    FromLE(mem[a..a + 8])
  }

  function Write64(mem: seq<byte>, a: nat, x: uint64): (r: seq<byte>)
    requires a + 8 <= |mem|
    ensures |r| == |mem|
  {
    Patch(mem, a, ToLE(x, 8))
  }

  lemma ReadOfWrite(mem: seq<byte>, a: nat, x: uint64)
    requires a + 8 <= |mem|
    ensures Read64(Write64(mem, a, x), a) == x
  {
    assert Write64(mem, a, x)[a..a + 8] == ToLE(x, 8);
    Pow256Of8();
    FromLEOfToLE(x, 8);
  }

  lemma ReadUnaffected(mem: seq<byte>, mem': seq<byte>, a: nat)
    requires a + 8 <= |mem| == |mem'|
    requires forall k :: a <= k < a + 8 ==> mem[k] == mem'[k]
    ensures Read64(mem', a) == Read64(mem, a)
  {
    assert mem[a..a + 8] == mem'[a..a + 8];
  }

  lemma ReadOfOtherWrite(mem: seq<byte>, a: nat, x: uint64, b: nat)
    requires a + 8 <= |mem| && b + 8 <= |mem|
    requires b + 8 <= a || a + 8 <= b
    ensures Read64(Write64(mem, a, x), b) == Read64(mem, b)
  {
    ReadUnaffected(mem, Write64(mem, a, x), b);
  }

  lemma ReadOfZeros(mem: seq<byte>, a: nat)
    requires a + 8 <= |mem|
    requires forall k :: a <= k < a + 8 ==> mem[k] == 0
    ensures Read64(mem, a) == 0
  {
    assert mem[a..a + 8] == Zeros(8);
    ToLEOfZero(8);
    Pow256Of8();
    FromLEOfToLE(0, 8);
  }

  // ----- the machine's stores and string.c's loops -----

  /** An 8-byte little-endian load instruction. */
  method Load64(ram: array<byte>, a: nat) returns (x: uint64)
    requires a + 8 <= ram.Length
    ensures x == Read64(ram[..], a)
  {
    assert ram[a..a + 8] == ram[..][a..a + 8];
    FromLEBound(ram[a..a + 8]);
    Pow256Of8();
    x := FromLE(ram[a..a + 8]);
  }

  /** An n-byte little-endian store instruction. */
  method Store(ram: array<byte>, a: nat, x: nat, n: nat)
    requires a + n <= ram.Length
    modifies ram
    ensures ram[..] == Patch(old(ram[..]), a, ToLE(x, n))
  {
    var bs := ToLE(x, n);
    forall i | 0 <= i < n {
      ram[a + i] := bs[i];
    }
  }

  method MemSet(ram: array<byte>, a: nat, c: int, n: nat)
    requires a + n <= ram.Length
    modifies ram
    ensures forall k :: 0 <= k < ram.Length ==> ram[k] == if a <= k < a + n then c % 256 else old(ram[k])
  {
    var i := 0;
    while i < n
      invariant 0 <= i <= n
      invariant forall k :: 0 <= k < ram.Length ==>
                              ram[k] == if a <= k < a + i then c % 256 else old(ram[k])
    {
      ram[a + i] := c % 256;
      i := i + 1;
    }
  }

  /** Bytes copied one by one, in ascending order, within one memory. */
  function CopyUp(mem: seq<byte>, d: nat, s: nat, n: nat): (r: seq<byte>)
    requires d + n <= |mem| && s + n <= |mem|
    ensures |r| == |mem|
  {
    if n == 0 then mem
    else
      var m := CopyUp(mem, d, s, n - 1);
      m[d + n - 1 := m[s + n - 1]]
  }

  /** A copy to a higher place it overlaps repeats the bytes before that place. */
  lemma {:induction false} CopyUpByte(mem: seq<byte>, d: nat, s: nat, n: nat, k: nat)
    requires d + n <= |mem| && s + n <= |mem| && k < |mem|
    ensures CopyUp(mem, d, s, n)[k] ==
            if !(d <= k < d + n) then mem[k] else if s < d then mem[s + (k - d) % (d - s)] else mem[s + (k - d)]
    decreases n
  {
    if n > 0 {
      if k != d + n - 1 {
        CopyUpByte(mem, d, s, n - 1, k);
      } else {
        CopyUpByte(mem, d, s, n - 1, s + n - 1);
        if s < d {
          ModBelow(n - 1, d - s);
        }
      }
    }
  }

  /** Otherwise the bytes arrive as they were. */
  lemma CopyUpIsPatch(mem: seq<byte>, d: nat, s: nat, n: nat)
    requires d + n <= |mem| && s + n <= |mem| && (d <= s || s + n <= d)
    ensures CopyUp(mem, d, s, n) == Patch(mem, d, mem[s..s + n])
  {
    forall k | 0 <= k < |mem|
      ensures CopyUp(mem, d, s, n)[k] == Patch(mem, d, mem[s..s + n])[k]
    {
      CopyUpByte(mem, d, s, n, k);
      if s < d <= k < d + n {
        ModBelow(k - d, d - s);
      }
    }
  }

  method MemCpy(dest: array<byte>, d: nat, src: array<byte>, s: nat, n: nat)
    requires d + n <= dest.Length && s + n <= src.Length
    modifies dest
    ensures dest != src ==> dest[..] == Patch(old(dest[..]), d, src[s..s + n])
    ensures dest == src ==> dest[..] == CopyUp(old(dest[..]), d, s, n)
  {
    var i := 0;
    while i < n
      invariant 0 <= i <= n
      invariant dest != src ==> forall k :: 0 <= k < dest.Length ==>
                                  dest[k] == if d <= k < d + i then src[s + k - d] else old(dest[k])
      invariant dest == src ==> dest[..] == CopyUp(old(dest[..]), d, s, i)
    {
      dest[d + i] := src[s + i];
      i := i + 1;
    }
  }
}
