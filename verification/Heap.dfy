/**
 The kernel heap of kernal/mm/heap.c: block headers linked through memory, first-fit
 allocation with splitting, growth page by page, and coalescing on free.

 Memory is a map from word addresses to 32-bit words. A header is four words: magic,
 size, free flag and next. Growth takes pages from a budget that stands for the page
 allocator and the page tables, so it may fail after any number of pages; module HeapGrowth
 composes the growth with both and says when that is exact.
 */
module Heap {
  import opened Words
  import opened RawMemory
  import opened HeapList

  const MAGIC_FREE: u32 := 0xDEAD_BEEF
  const MAGIC_USED: u32 := 0xBEEF_CAFE

  // ------------------------------------------------------------ headers in memory

  function NextAddr(bs: seq<Block>, i: nat): int
    requires i < |bs|
  {
    if i + 1 < |bs| then bs[i + 1].addr else 0
  }

  /** A null next pointer marks the last block. */
  lemma NextIsNull(bs: seq<Block>, brk: int, i: nat)
    requires Ordered(bs, brk) && i < |bs|
    ensures NextAddr(bs, i) == 0 <==> i == |bs| - 1
  {
    if i + 1 < |bs| { assert OkAt(bs, brk, i + 1); }
  }

  /** The four header words of block i. */
  ghost predicate HeaderAt(m: Memory, bs: seq<Block>, i: nat)
    requires i < |bs|
  {
    var b := bs[i];
    Load(m, b.addr) == (if b.free then MAGIC_FREE else MAGIC_USED)
    && Load(m, b.addr + 4) == b.size
    && Load(m, b.addr + 8) == (if b.free then 1 else 0)
    && Load(m, b.addr + 12) == NextAddr(bs, i)
  }

  /** The list that starts at head is exactly bs. */
  ghost predicate Linked(m: Memory, bs: seq<Block>, head: int) {
    head == (if bs == [] then 0 else bs[0].addr)
    && forall i :: 0 <= i < |bs| ==> HeaderAt(m, bs, i)
  }

  /** No payload byte of b changed. */
  ghost predicate PayloadKept(m: Memory, m': Memory, b: Block) {
    forall a :: b.Payload() <= a < b.End() ==> Load(m', a) == Load(m, a)
  }

  /** No payload byte of any of these blocks changed. */
  ghost predicate AllKept(m: Memory, m': Memory, bs: set<Block>) {
    forall b :: b in bs ==> PayloadKept(m, m', b)
  }

  lemma AllKeptTrans(m: Memory, m': Memory, m'': Memory, bs: set<Block>)
    requires AllKept(m, m', bs) && AllKept(m', m'', bs)
    ensures AllKept(m, m'', bs)
  {
  }

  /** Stores confined to one block of an ordered list leave every other block alone. */
  lemma OthersKept(m: Memory, m': Memory, bs: seq<Block>, brk: int, i: nat)
    requires Ordered(bs, brk) && i < |bs| && WritesOnly(m, m', bs[i].addr, bs[i].End())
    ensures forall k :: 0 <= k < |bs| && k != i && HeaderAt(m, bs, k) ==> HeaderAt(m', bs, k)
    ensures forall b :: b in bs && b != bs[i] ==> PayloadKept(m, m', b)
  {
    forall k | 0 <= k < |bs| && k != i && HeaderAt(m, bs, k)
      ensures HeaderAt(m', bs, k)
    {
      assert OkAt(bs, brk, k) && OkAt(bs, brk, i);
      if k < i { assert Before(bs, k, i); } else { assert Before(bs, i, k); }
    }
    forall b | b in bs && b != bs[i]
      ensures PayloadKept(m, m', b)
    {
      PayloadsDisjoint(bs, brk, b, bs[i]);
      assert OkAt(bs, brk, i);
    }
  }

  /** The header of a block after some other blocks of the list were replaced. */
  lemma SameHeader(m: Memory, bs: seq<Block>, i: nat, bs': seq<Block>, j: nat)
    requires i < |bs| && j < |bs'| && bs[i] == bs'[j] && NextAddr(bs, i) == NextAddr(bs', j)
    ensures HeaderAt(m, bs, i) <==> HeaderAt(m, bs', j)
  {
  }

  /** Stores inside the payload of one live block leave the list and the other payloads alone. */
  lemma PayloadWrite(m: Memory, m': Memory, bs: seq<Block>, head: int, brk: int, k: nat)
    requires Ordered(bs, brk) && Linked(m, bs, head) && k < |bs|
    requires WritesOnly(m, m', bs[k].Payload(), bs[k].End())
    ensures Linked(m', bs, head) && AllKept(m, m', Live(bs) - {bs[k]})
  {
    assert OkAt(bs, brk, k);
    OthersKept(m, m', bs, brk, k);
    forall i | 0 <= i < |bs|
      ensures HeaderAt(m', bs, i)
    {
      assert HeaderAt(m, bs, i);
    }
  }

  // ---------------------------------------------------------------- request sizes

  /** ALIGN_UP(size, 8) in 32 bits */
  function Align8(size: u32): u32 {
    Wrap(size + 7) - Wrap(size + 7) % 8
  }

  /** The argument heap_alloc_raw passes to heap_grow for an aligned request. */
  function GrowSize(n: u32): u32 {
    if Wrap(n + 16) < 4096 then 4096 else Wrap(n + 16)
  }

  /** The number of pages heap_grow maps for an argument. */
  function GrowPages(needed: u32): int {
    Wrap(needed + 4095) / 4096
  }

  /** Pages needed for a block of n bytes with its header. */
  function PagesFor(n: int): int {
    if n + 16 < 4096 then 1 else (n + 4111) / 4096
  }

  /**
   Growing provides room for the request exactly when no 32-bit addition on the way wraps, and
   then with as few pages as will do.
   */
  lemma GrowthCoversRequestIff(size: u32)
    requires size > 0
    ensures 4096 * GrowPages(GrowSize(Align8(size))) >= 16 + Align8(size) && Align8(size) >= size
            <==> size <= 0xFFFF_EFF0
    ensures var p := GrowPages(GrowSize(Align8(size)));
            size <= 0xFFFF_EFF0 ==> p == 1 || 4096 * (p - 1) < 16 + Align8(size)
  {
    GrowArithmetic(Align8(size));
  }

  lemma GrowArithmetic(n: u32)
    requires n % 8 == 0
    ensures n <= 0xFFFF_EFF0 ==> GrowPages(GrowSize(n)) == PagesFor(n) && 4096 * PagesFor(n) - 16 >= n
    ensures 0xFFFF_EFF0 < n <= 0xFFFF_FFE8 ==> GrowPages(GrowSize(n)) == 0
    ensures n > 0xFFFF_FFE8 ==> GrowPages(GrowSize(n)) == 1
  {
  }

  // -------------------------------------------------------- the stores of each operation

  function StoreHeader(m: Memory, a: int, magic: int, size: int, free: int, next: int): Memory {
    m[a := magic][a + 4 := size][a + 8 := free][a + 12 := next]
  }

  /** heap_split followed by the three stores that mark the block used. */
  function TakeStores(m: Memory, b: Block, n: int, next: int): Memory {
    var s := if b.size < n + 48 then m
             else StoreHeader(m, b.addr + 16 + n, MAGIC_FREE, b.size - n - 16, 1, next)
                    [b.addr + 4 := n][b.addr + 12 := b.addr + 16 + n];
    s[b.addr + 8 := 0][b.addr := MAGIC_USED]
  }

  /** The stores leave the headers of the one or two pieces behind. */
  lemma PieceHeaders(m: Memory, b: Block, n: int, next: int)
    requires 0 <= n <= b.size
    requires b.free && HeaderAt(m, [b, Block(next, 0, true)], 0)
    ensures forall k ::
              0 <= k < |Pieces(b, n)|
              ==> HeaderAt(TakeStores(m, b, n, next), Pieces(b, n) + [Block(next, 0, true)], k)
  {
  }

  lemma TakeStoresLink(m: Memory, bs: seq<Block>, head: int, brk: int, i: nat, n: int)
    requires Ordered(bs, brk) && Linked(m, bs, head)
    requires i < |bs| && bs[i].free && 0 <= n <= bs[i].size && n % 8 == 0
    ensures var m' := TakeStores(m, bs[i], n, NextAddr(bs, i));
            Linked(m', Take(bs, i, n), head) && WritesOnly(m, m', bs[i].addr, bs[i].End())
  {
    var b := bs[i];
    var m' := TakeStores(m, b, n, NextAddr(bs, i));
    var r := Take(bs, i, n);
    var c := |Pieces(b, n)|;
    assert OkAt(bs, brk, i) && HeaderAt(m, bs, i);
    assert WritesOnly(m, m', b.addr, b.End());
    OthersKept(m, m', bs, brk, i);
    PieceHeaders(m, b, n, NextAddr(bs, i));
    forall k | 0 <= k < |r|
      ensures HeaderAt(m', r, k)
    {
      if i <= k < i + c {
        SameHeader(m', Pieces(b, n) + [Block(NextAddr(bs, i), 0, true)], k - i, r, k);
      } else if k < i {
        assert HeaderAt(m, bs, k);
        SameHeader(m', bs, k, r, k);
      } else {
        assert HeaderAt(m, bs, k - c + 1);
        SameHeader(m', bs, k - c + 1, r, k);
      }
    }
  }

  /** The two stores of one coalescing step. */
  function MergeStores(m: Memory, b: Block, c: Block, next: int): Memory {
    m[b.addr + 4 := b.size + 16 + c.size][b.addr + 12 := next]
  }

  lemma MergeStoresLink(m: Memory, bs: seq<Block>, head: int, brk: int, i: nat)
    requires Ordered(bs, brk) && Linked(m, bs, head)
    requires i + 1 < |bs| && bs[i].free && bs[i + 1].free
    ensures var m' := MergeStores(m, bs[i], bs[i + 1], NextAddr(bs, i + 1));
            Linked(m', Merge(bs, i), head) && WritesOnly(m, m', bs[i].addr, bs[i].End())
  {
    assert OkAt(bs, brk, i) && OkAt(bs, brk, i + 1) && Before(bs, i, i + 1);
    assert HeaderAt(m, bs, i) && HeaderAt(m, bs, i + 1);
    var m' := MergeStores(m, bs[i], bs[i + 1], NextAddr(bs, i + 1));
    var r := Merge(bs, i);
    OthersKept(m, m', bs, brk, i);
    forall k | 0 <= k < |r|
      ensures HeaderAt(m', r, k)
    {
      if k < i {
        assert HeaderAt(m, bs, k);
        SameHeader(m', bs, k, r, k);
      } else if k > i {
        assert HeaderAt(m, bs, k + 1);
        SameHeader(m', bs, k + 1, r, k);
      }
    }
  }

  /** Where heap_split puts the header of the rest when the block starts at the break: below it, since the sum wraps. */
  function PastRest(brk: int, n: int): int {
    brk + 16 + n - 0x1_0000_0000
  }

  /** For one size only the rest is too small to be split off: size + 48 does not wrap past the block's size. */
  predicate Unsplit(n: int) {
    n == 0xFFFF_FFC8
  }

  /** The stores of a request above 0xFFFF_EFF0: a header at the break, which claims nearly 4 GB, and its link. */
  function PastHeader(m: Memory, last: int, brk: int): Memory {
    StoreHeader(WipePage(m, brk), brk, MAGIC_FREE, 0xFFFF_FFF0, 1, 0)[last + 12 := brk]
  }

  /** Then heap_split and the stores that hand that block out. */
  function PastTake(m: Memory, brk: int, n: int): Memory {
    var rest := PastRest(brk, n);
    var s := if Unsplit(n) then m
             else StoreHeader(m, rest, MAGIC_FREE, Wrap(0xFFFF_FFE0 - n), 1, 0)[brk + 4 := n][brk + 12 := rest];
    s[brk + 8 := 0][brk := MAGIC_USED]
  }

  /** No block is as long as a request that wraps in the growth. */
  lemma NoneIsThatLong(bs: seq<Block>, brk: int, n: int, i: nat)
    requires Ordered(bs, brk) && brk <= 0xE000_0000 && n > 0xFFFF_EFF0 && i <= |bs|
    ensures FirstFit(bs, n, i) == |bs|
  {
    var k := FirstFit(bs, n, i);
    assert k < |bs| ==> OkAt(bs, brk, k);
  }

  lemma PageIsAligned(a: int)
    requires a % 4096 == 0
    ensures a % 8 == 0
  {
    var q := a / 4096;
    assert a == 8 * (512 * q);
  }

  /** With addresses taken modulo 2^32 left aside, the block at the break ends 4 GB above it. */
  lemma PastOrdered(bs: seq<Block>, brk: int, b: Block)
    requires Ordered(bs, brk) && brk % 4096 == 0 && brk >= KHEAP_START && b == Block(brk, 0xFFFF_FFF0, true)
    ensures Ordered(bs + [b], brk + 0x1_0000_0000)
  {
    OrderedGrows(bs, brk, brk + 0x1_0000_0000);
    PageIsAligned(brk);
    AppendSpec(bs, brk, b, brk + 0x1_0000_0000);
  }

  lemma MarkFreeLink(m: Memory, bs: seq<Block>, head: int, brk: int, i: nat)
    requires Ordered(bs, brk) && Linked(m, bs, head)
    requires i < |bs| && !bs[i].free
    ensures var m' := m[bs[i].addr + 8 := 1][bs[i].addr := MAGIC_FREE];
            Linked(m', bs[i := bs[i].(free := true)], head) && WritesOnly(m, m', bs[i].addr, bs[i].End())
  {
    var m' := m[bs[i].addr + 8 := 1][bs[i].addr := MAGIC_FREE];
    var r := bs[i := bs[i].(free := true)];
    assert OkAt(bs, brk, i) && HeaderAt(m, bs, i);
    OthersKept(m, m', bs, brk, i);
    forall k | 0 <= k < |r|
      ensures HeaderAt(m', r, k)
    {
      if k != i {
        assert HeaderAt(m, bs, k);
        SameHeader(m', bs, k, r, k);
      }
    }
  }

  /** The header of a block appended at the old break, and the store that links the last block to it. */
  lemma AppendLink(m: Memory, m': Memory, bs: seq<Block>, head: int, brk: int, b: Block)
    requires Ordered(bs, brk) && Linked(m, bs, head) && brk <= b.addr && bs != []
    requires HeaderAt(m, [b], 0)
    requires m' == m[bs[|bs| - 1].addr + 12 := b.addr]
    ensures Linked(m', bs + [b], head)
    ensures forall c :: c in bs ==> PayloadKept(m, m', c)
  {
    var r, z := bs + [b], |bs| - 1;
    assert OkAt(bs, brk, z) && HeaderAt(m, bs, z);
    OthersKept(m, m', bs, brk, z);
    forall k | 0 <= k < |r|
      ensures HeaderAt(m', r, k)
    {
      if k < z {
        assert HeaderAt(m, bs, k);
        SameHeader(m', bs, k, r, k);
      } else if k == |bs| {
        SameHeader(m', [b], 0, r, k);
      }
    }
  }

  /** A block over whole pages at a page-aligned break is well formed. */
  lemma NewBlockOk(brk: int, done: nat)
    requires brk % 4096 == 0 && brk >= KHEAP_START && done > 0
    ensures BlockOk(Block(brk, 4096 * done - 16, true), brk + 4096 * done)
    ensures (brk + 4096 * done) % 4096 == 0
  {
    var q := brk / 4096;
    assert brk == 8 * (512 * q);
    assert 4096 * done - 16 == 8 * (512 * done - 2);
  }

  // ---------------------------------------------------------------------- the heap

  datatype AllocResult =
    | Null
    | Ptr(p: int)
    | PastBreak(p: int)  // the payload of a block that starts at the break, over a page that no growth has mapped
    | Overrun            // the block is shorter than the bytes that the code writes into it
    | Panic              // the page-fault handler finds no memory for the page at the break

  /** The break and the frame budget allow k more pages. */
  predicate CanGrow(brk: int, frames: int, k: int) {
    k <= frames && brk + 4096 * k <= 0xDFFF_F000
  }

  class KernelHeap {
    var mem: Memory
    var head: int
    var brk: u32
    var usedBytes: int
    var totalBytes: int
    var frames: nat               // pages that can still be mapped at the break
    ghost var blocks: seq<Block>  // the abstract value

    ghost predicate Valid()
      reads this
    {
      Ordered(blocks, brk) && Linked(mem, blocks, head) && blocks != []
      && brk % 4096 == 0 && KHEAP_START <= brk <= 0xDFFF_F000
      && usedBytes == UsedBytes(blocks) && totalBytes == brk - KHEAP_START
    }

    /** heap_grow: maps page after page at the break; pages mapped before a failure stay mapped. */
    method Grow(needed: u32) returns (ok: bool, ghost done: nat)
      requires brk % 4096 == 0 && KHEAP_START <= brk <= 0xDFFF_F000
      modifies this`mem, this`brk, this`totalBytes, this`frames
      ensures done <= GrowPages(needed) && CanGrow(old(brk), old(frames), done)
      ensures ok <==> done == GrowPages(needed)
      ensures !ok ==> !CanGrow(old(brk), old(frames), done + 1)
      ensures done == 0 ==> mem == old(mem)
      ensures brk == old(brk) + 4096 * done && totalBytes == old(totalBytes) + 4096 * done
              && frames == old(frames) - done
      ensures WritesOnly(old(mem), mem, old(brk), brk)
    {
      var pages := Wrap(needed + 4095) / 4096;
      var i := 0;
      while i < pages
        invariant 0 <= i <= pages && CanGrow(old(brk), old(frames), i)
        invariant brk == old(brk) + 4096 * i && totalBytes == old(totalBytes) + 4096 * i && frames == old(frames) - i
        invariant WritesOnly(old(mem), mem, old(brk), brk) && (i == 0 ==> mem == old(mem))
      {
        if Wrap(brk + 4096) > KHEAP_MAX { return false, i; }
        if frames == 0 { return false, i; }
        frames := frames - 1;
        mem := WipePage(mem, brk);
        brk := brk + 4096;
        totalBytes := totalBytes + 4096;
        i := i + 1;
      }
      return true, i;
    }

    /** heap_init; false stands for its kpanic. */
    method Init() returns (ok: bool)
      modifies this
      ensures frames <= old(frames)
      ensures ok <==> old(frames) >= 4
      ensures ok ==> Valid() && Tiled(blocks, brk) && blocks == [Block(KHEAP_START, 16368, true)] && usedBytes == 0
    {
      brk, usedBytes, totalBytes := 0xD000_0000, 0, 0;
      ghost var done;
      ok, done := Grow(4 * 4096);
      if !ok { return; }
      head := 0xD000_0000;
      mem := StoreHeader(mem, head, MAGIC_FREE, totalBytes - 16, 1, 0);
      blocks := [Block(KHEAP_START, 16368, true)];
      assert HeaderAt(mem, blocks, 0);
      SumsOfOne(blocks[0]);
    }

    /** The first-fit walk of heap_alloc_raw; 0 when no block fits. */
    method FindFit(n: u32, ghost bound: int) returns (blk: int, ghost k: nat)
      requires Ordered(blocks, bound) && Linked(mem, blocks, head) && blocks != []
      ensures k == FirstFit(blocks, n, 0)
      ensures var f := FirstFit(blocks, n, 0);
              blk == (if f < |blocks| then blocks[f].addr else 0)
              && (blk != 0 <==> f < |blocks|)
    {
      blk, k := head, 0;
      assert OkAt(blocks, bound, 0);
      while blk != 0
        invariant k <= |blocks| && blk == (if k < |blocks| then blocks[k].addr else 0)
        invariant k < |blocks| ==> blk != 0
        invariant FirstFit(blocks, n, 0) == FirstFit(blocks, n, k)
        decreases |blocks| - k
      {
        assert HeaderAt(mem, blocks, k) && OkAt(blocks, bound, k);
        if Load(mem, blk + 8) != 0 && Load(mem, blk + 4) >= n { return; }
        blk, k := Load(mem, blk + 12), k + 1;
        assert k < |blocks| ==> OkAt(blocks, bound, k);
      }
    }

    /** heap_split, and the stores that hand the block out. */
    method TakeBlock(blk: int, n: u32, ghost k: nat) returns (p: int)
      requires Valid() && k < |blocks| && blk == blocks[k].addr
      requires blocks[k].free && n <= blocks[k].size && n % 8 == 0
      modifies this`mem, this`usedBytes, this`blocks
      ensures Valid() && blocks == Take(old(blocks), k, n) && p == blocks[k].Payload()
      ensures AllKept(old(mem), mem, Live(old(blocks)))
    {
      ghost var bs, m := blocks, mem;
      assert HeaderAt(mem, blocks, k) && OkAt(blocks, brk, k);
      var size := Load(mem, blk + 4);
      if !(size < n + 48) {
        var rest := blk + 16 + n;
        mem := StoreHeader(mem, rest, MAGIC_FREE, size - n - 16, 1, Load(mem, blk + 12));
        mem := mem[blk + 4 := n][blk + 12 := rest];
      }
      mem := mem[blk + 8 := 0][blk := MAGIC_USED];
      assert mem == TakeStores(m, bs[k], n, NextAddr(bs, k));
      TakeStoresLink(m, bs, head, brk, k, n);
      TakeSpec(bs, k, n, brk);
      OthersKept(m, mem, bs, brk, k);
      blocks := Take(bs, k, n);
      usedBytes := usedBytes + Load(mem, blk + 4);
      assert HeaderAt(mem, blocks, k);
      return blk + 16;
    }

    /** The walk to the last block. */
    method FindLast(ghost oldBrk: int) returns (last: int)
      requires Ordered(blocks, oldBrk) && Linked(mem, blocks, head) && blocks != []
      ensures last == blocks[|blocks| - 1].addr
    {
      ghost var z := 0;
      last := head;
      assert HeaderAt(mem, blocks, 0);
      NextIsNull(blocks, oldBrk, 0);
      while Load(mem, last + 12) != 0
        invariant z < |blocks| && last == blocks[z].addr && HeaderAt(mem, blocks, z)
        invariant NextAddr(blocks, z) == 0 ==> z == |blocks| - 1
        decreases |blocks| - z
      {
        z := z + 1;
        last := Load(mem, last + 12);
        NextIsNull(blocks, oldBrk, z);
        assert HeaderAt(mem, blocks, z);
      }
    }

    /** Writes the header of a new free block at the old break and links it behind the last block. */
    method AppendBlock(oldBrk: int, ghost done: nat)
      requires Ordered(blocks, oldBrk) && Linked(mem, blocks, head) && blocks != []
      requires oldBrk % 4096 == 0 && brk == oldBrk + 4096 * done && done > 0 && KHEAP_START <= oldBrk
               && brk <= 0xDFFF_F000
      requires usedBytes == UsedBytes(blocks) && totalBytes == brk - KHEAP_START
      modifies this`mem, this`blocks
      ensures Valid() && blocks == old(blocks) + [Block(oldBrk, brk - oldBrk - 16, true)]
      ensures AllKept(old(mem), mem, Live(old(blocks)))
    {
      ghost var bs, m, b := blocks, mem, Block(oldBrk, brk - oldBrk - 16, true);
      NewBlockOk(oldBrk, done);
      mem := StoreHeader(mem, oldBrk, MAGIC_FREE, brk - oldBrk - 16, 1, 0);
      assert HeaderAt(mem, [b], 0);
      HeadersBelow(m, mem, bs, head, oldBrk);
      ghost var m1 := mem;
      var last := FindLast(oldBrk);
      mem := mem[last + 12 := oldBrk];
      AppendLink(m1, mem, bs, head, oldBrk, b);
      AllKeptTrans(m, m1, mem, Live(bs));
      AppendSpec(bs, oldBrk, b, brk);
      blocks := bs + [b];
    }

    /** The middle of heap_alloc_raw: grow, and turn the new pages into a free block. */
    method Extend(growSize: u32) returns (ok: bool, ghost done: nat)
      requires Valid() && growSize % 8 == 0
      modifies this
      ensures Valid() && AllKept(old(mem), mem, Live(old(blocks)))
      ensures done <= GrowPages(growSize) && CanGrow(old(brk), old(frames), done)
      ensures ok <==> done == GrowPages(growSize)
      ensures !ok ==> !CanGrow(old(brk), old(frames), done + 1)
      ensures done == 0 ==> mem == old(mem)
      ensures brk == old(brk) + 4096 * done && frames == old(frames) - done
      ensures usedBytes == old(usedBytes) && Live(blocks) == Live(old(blocks))
      ensures blocks == if ok && done > 0 then old(blocks) + [Block(old(brk), 4096 * done - 16, true)] else old(blocks)
    {
      var oldBrk := brk;
      ghost var m := mem;
      ok, done := Grow(growSize);
      HeadersBelow(m, mem, blocks, head, oldBrk);
      OrderedGrows(blocks, oldBrk, brk);
      if !ok || brk == oldBrk { return; }
      ghost var m1 := mem;
      NewBlockOk(oldBrk, done);
      AppendSpec(blocks, oldBrk, Block(oldBrk, 4096 * done - 16, true), brk);
      AppendBlock(oldBrk, done);
      AllKeptTrans(m, m1, mem, Live(old(blocks)));
    }

    /**
     The rest of heap_alloc_raw when the growth has mapped no page and reports success. The
     header store at the break faults, and the page-fault handler maps a page there or
     panics; the new block claims nearly 4 GB, and the retry takes it.
     */
    method PastTheBreak(n: u32) returns (r: AllocResult)
      requires Valid() && n % 8 == 0 && 0xFFFF_EFF0 < n <= 0xFFFF_FFE8
      modifies this`mem, this`usedBytes, this`blocks, this`frames
      ensures blocks == old(blocks) && r == if old(frames) == 0 then Panic else PastBreak(brk + 16)
      ensures r.Panic? ==> mem == old(mem) && frames == 0 && usedBytes == old(usedBytes)
      ensures r.PastBreak? ==>
                frames == old(frames) - 1
                && mem == PastTake(PastHeader(old(mem), old(blocks)[|old(blocks)| - 1].addr, brk), brk, n)
    {
      if frames == 0 { return Panic; }
      ghost var bs := blocks;
      frames := frames - 1;
      LinkPast();
      NoneIsThatLong(bs, brk, n, 0);
      FitsAppended(bs, Block(brk, 0xFFFF_FFF0, true), n, 0);
      var blk; ghost var k;
      blk, k := FindFit(n, brk + 0x1_0000_0000);
      assert HeaderAt(mem, blocks, |bs|);
      blocks := bs;
      TakePast(blk, n);
      r := PastBreak(blk + 16);
    }

    /** The page that demand paging maps at the break, the header there, and its link. */
    method LinkPast()
      requires Valid()
      modifies this`mem, this`blocks
      ensures blocks == old(blocks) + [Block(brk, 0xFFFF_FFF0, true)]
      ensures Ordered(blocks, brk + 0x1_0000_0000) && Linked(mem, blocks, head)
      ensures mem == PastHeader(old(mem), old(blocks)[|old(blocks)| - 1].addr, brk)
    {
      ghost var bs, m, b := blocks, mem, Block(brk, 0xFFFF_FFF0, true);
      mem := WipePage(mem, brk);
      mem := StoreHeader(mem, brk, MAGIC_FREE, Wrap(0 - 16), 1, 0);
      HeadersBelow(m, mem, bs, head, brk);
      assert HeaderAt(mem, [b], 0);
      ghost var m1 := mem;
      var last := FindLast(brk);
      mem := mem[last + 12 := brk];
      AppendLink(m1, mem, bs, head, brk, b);
      PastOrdered(bs, brk, b);
      blocks := bs + [b];
    }

    /** heap_split and the stores of heap_alloc_raw, in 32 bits, for the block at the break. */
    method TakePast(blk: int, n: u32)
      requires blk == brk && n % 8 == 0 && 0xFFFF_EFF0 < n <= 0xFFFF_FFE8
      requires 0xD000_0000 <= brk <= 0xDFFF_F000
      requires Load(mem, blk + 4) == 0xFFFF_FFF0 && Load(mem, blk + 12) == 0
      modifies this`mem, this`usedBytes
      ensures mem == PastTake(old(mem), brk, n)
    {
      var size := Load(mem, blk + 4);
      if !(size < Wrap(n + 48)) {
        var rest := Wrap(blk + 16 + n);
        mem := StoreHeader(mem, rest, MAGIC_FREE, Wrap(size - n - 16), 1, Load(mem, blk + 12));
        mem := mem[blk + 4 := n][blk + 12 := rest];
      }
      mem := mem[blk + 8 := 0][blk := MAGIC_USED];
      usedBytes := Wrap(usedBytes + Load(mem, blk + 4));
    }

    /**
     heap_alloc_raw. A request takes the first fitting block; otherwise the heap grows by a
     block that fits and the request is served from it, in one retry. Requests so large that
     a 32-bit addition wraps end in other ways: in a block at the break without a growth, in
     retries that use up every frame, or in a block shorter than the caller asked for.
     */
    method AllocRaw(size: u32) returns (r: AllocResult, ghost done: nat)
      requires Valid()
      modifies this
      ensures !r.PastBreak? ==> Valid() && AllKept(old(mem), mem, Live(old(blocks)))
      ensures r.PastBreak? ==>
                mem == PastTake(PastHeader(old(mem), old(blocks)[|old(blocks)| - 1].addr, brk), brk, Align8(size))
      ensures done <= old(frames) && brk == old(brk) + 4096 * done
      ensures frames == old(frames) - done - if r.PastBreak? then 1 else 0
      ensures !r.Ptr? ==> Live(blocks) == Live(old(blocks)) && (r.PastBreak? || usedBytes == old(usedBytes))
      ensures size == 0 ==> r == Null && done == 0 && blocks == old(blocks)
      ensures size > 0 ==> Outcome(old(blocks), old(brk), old(frames), Align8(size), blocks, r, done)
      decreases frames, 0
    {
      if size == 0 { return Null, 0; }
      var n := Align8(size);
      Align8Twice(size);
      var blk; ghost var k;
      blk, k := FindFit(n, brk);
      if blk != 0 {
        assert OkAt(blocks, brk, k);
        var p := TakeBlock(blk, n, k);
        return Ptr(p), 0;
      }
      GrowCases(n, GrowSize(n));
      ghost var m := mem;
      var oldBrk := brk;
      var ok; ghost var d;
      ok, d := Extend(GrowSize(n));
      if !ok { return Null, d; }
      if brk == oldBrk {
        r := PastTheBreak(n);
        return r, 0;
      }
      r, done := Retry(n, oldBrk, d, m, old(blocks), old(frames));
    }

    /** The tail call after a growth by d pages. */
    method Retry(n: u32, ghost oldBrk: int, ghost d: nat, ghost m: Memory, ghost bs: seq<Block>, ghost oldFrames: nat)
      returns (r: AllocResult, ghost done: nat)
      requires Valid() && n % 8 == 0 && Align8(n) == n && (n <= 0xFFFF_EFF0 || n > 0xFFFF_FFE8)
      requires FirstFit(bs, n, 0) == |bs|
      requires d == GrowPages(GrowSize(n)) > 0 && CanGrow(oldBrk, oldFrames, d)
      requires brk == oldBrk + 4096 * d && frames == oldFrames - d && AllKept(m, mem, Live(bs))
      requires blocks == bs + [Block(oldBrk, 4096 * d - 16, true)] && Live(blocks) == Live(bs)
      modifies this
      ensures Valid() && AllKept(m, mem, Live(bs)) && !r.PastBreak?
      ensures done <= oldFrames && brk == oldBrk + 4096 * done && frames == oldFrames - done
      ensures !r.Ptr? ==> Live(blocks) == Live(bs) && usedBytes == old(usedBytes)
      ensures Outcome(bs, oldBrk, oldFrames, n, blocks, r, done)
      decreases frames, 1
    {
      ghost var m1 := mem;
      r, done := AllocRaw(n);
      AllKeptTrans(m, m1, mem, Live(bs));
      RetryOutcome(bs, oldBrk, oldFrames, n, d, blocks, r, done);
      done := done + d;
    }

    /** The coalescing pass of heap_free_raw. */
    method Coalesce()
      requires Valid()
      modifies this`mem, this`blocks
      ensures Valid() && blocks == CoalesceFrom(old(blocks), 0) && NoAdjacentFree(blocks)
      ensures Live(blocks) == Live(old(blocks)) && AllKept(old(mem), mem, Live(blocks))
      ensures forall a :: a % 8 == 0 ==> Load(mem, a) == Load(old(mem), a)
      ensures Tiled(old(blocks), brk) ==> Tiled(blocks, brk)
    {
      ghost var i := 0;
      var cur := head;
      CoalesceSpec(blocks, 0, brk);
      assert OkAt(blocks, brk, 0) && HeaderAt(mem, blocks, 0);
      NextIsNull(blocks, brk, 0);
      while Load(mem, cur + 12) != 0
        invariant Ordered(blocks, brk) && Linked(mem, blocks, head) && usedBytes == UsedBytes(blocks)
        invariant i < |blocks| && cur == blocks[i].addr && HeaderAt(mem, blocks, i)
        invariant NextAddr(blocks, i) == 0 <==> i == |blocks| - 1
        invariant CoalesceFrom(blocks, i) == CoalesceFrom(old(blocks), 0)
        invariant Live(blocks) == Live(old(blocks)) && AllKept(old(mem), mem, Live(blocks))
        invariant forall a :: a % 8 == 0 ==> Load(mem, a) == Load(old(mem), a)
        decreases |blocks| - i
      {
        var next := Load(mem, cur + 12);
        assert HeaderAt(mem, blocks, i + 1);
        if Load(mem, cur + 8) != 0 && Load(mem, next + 8) != 0 {
          MergeAt(i, cur, next);
        } else {
          i := i + 1;
          cur := next;
        }
        NextIsNull(blocks, brk, i);
        assert HeaderAt(mem, blocks, i);
      }
    }

    /** One merge: the block at cur swallows its successor. */
    method MergeAt(ghost i: nat, cur: int, next: int)
      requires Ordered(blocks, brk) && Linked(mem, blocks, head) && usedBytes == UsedBytes(blocks)
      requires i + 1 < |blocks| && cur == blocks[i].addr && next == blocks[i + 1].addr
      requires blocks[i].free && blocks[i + 1].free
      modifies this`mem, this`blocks
      ensures Ordered(blocks, brk) && Linked(mem, blocks, head) && usedBytes == UsedBytes(blocks)
      ensures blocks == Merge(old(blocks), i) && Live(blocks) == Live(old(blocks))
      ensures AllKept(old(mem), mem, Live(blocks))
      ensures forall a :: a % 8 == 0 ==> Load(mem, a) == Load(old(mem), a)
    {
      ghost var bs, m := blocks, mem;
      assert HeaderAt(mem, blocks, i) && HeaderAt(mem, blocks, i + 1) && OkAt(blocks, brk, i);
      mem := mem[cur + 4 := Load(mem, cur + 4) + 16 + Load(mem, next + 4)];
      mem := mem[cur + 12 := Load(mem, next + 12)];
      assert OkAt(bs, brk, i + 1) && Before(bs, i, i + 1);
      assert mem == MergeStores(m, bs[i], bs[i + 1], NextAddr(bs, i + 1));
      MergeStoresLink(m, bs, head, brk, i);
      OthersKept(m, mem, bs, brk, i);
      MergeOrdered(bs, i, brk);
      MergeSums(bs, i);
      MergeLive(bs, i);
      blocks := Merge(blocks, i);
    }

    /** ptr is what kmalloc returned for the live block k. */
    ghost predicate IsLive(ptr: int, k: nat)
      reads this
    {
      k < |blocks| && !blocks[k].free && blocks[k].Payload() == ptr
    }

    /**
     heap_free_raw; true stands for its kpanic. The header in front of ptr must be that of
     block k unless its magic number is wrong, which is detected.
     */
    method FreeRaw(ptr: u32, ghost k: nat) returns (panicked: bool)
      requires Valid()
      requires ptr == 0 || Load(mem, Wrap(ptr - 16)) != MAGIC_USED || IsLive(ptr, k)
      modifies this`mem, this`blocks, this`usedBytes
      ensures Valid()
      ensures panicked <==> ptr != 0 && Load(old(mem), Wrap(ptr - 16)) != MAGIC_USED
      ensures panicked || ptr == 0 ==> mem == old(mem) && blocks == old(blocks)
      ensures !panicked && ptr != 0 ==>
                blocks == CoalesceFrom(old(blocks)[k := old(blocks)[k].(free := true)], 0) && NoAdjacentFree(blocks)
                && Live(blocks) == Live(old(blocks)) - {old(blocks)[k]}
                && usedBytes == old(usedBytes) - old(blocks)[k].size
                && AllKept(old(mem), mem, Live(blocks))
                && Load(mem, Wrap(ptr - 16)) == MAGIC_FREE  // a second free of ptr panics
                && (Tiled(old(blocks), brk) ==> Tiled(blocks, brk))
    {
      if ptr == 0 { return false; }
      var blk := Wrap(ptr - 16);
      if Load(mem, blk) != MAGIC_USED { return true; }
      ghost var bs, m := blocks, mem;
      assert OkAt(blocks, brk, k) && HeaderAt(mem, blocks, k) && blk == blocks[k].addr;
      mem := mem[blk + 8 := 1][blk := MAGIC_FREE];
      MarkFreeLink(m, bs, head, brk, k);
      MarkFreeSpec(bs, k, brk);
      OthersKept(m, mem, bs, brk, k);
      usedBytes := usedBytes - Load(mem, blk + 4);
      blocks := bs[k := bs[k].(free := true)];
      ghost var m1 := mem;
      Coalesce();
      AllKeptTrans(m, m1, mem, Live(blocks));
      return false;
    }

    /** memcpy of n bytes, word by word and upwards. */
    method CopyOver(dst: int, src: int, n: int)
      requires 0 <= n && n % 4 == 0 && (dst <= src || src + n <= dst)
      modifies this`mem
      ensures WritesOnly(old(mem), mem, dst, dst + n) && Copied(old(mem), mem, src, dst, n)
    {
      var i := 0;
      while i < n
        invariant 0 <= i <= n && i % 4 == 0
        invariant WritesOnly(old(mem), mem, dst, dst + i)
        invariant Copied(old(mem), mem, src, dst, i)
      {
        mem := mem[dst + i := Load(mem, src + i)];
        i := i + 4;
      }
    }

    /** memcpy of n bytes into the payload of block k. */
    method CopyInto(dst: int, src: int, n: int, ghost k: nat)
      requires Valid() && IsLive(dst, k) && 0 <= n <= blocks[k].size && n % 4 == 0
      requires src + n <= blocks[k].addr || blocks[k].End() <= src
      modifies this`mem
      ensures Valid() && AllKept(old(mem), mem, Live(blocks) - {blocks[k]})
      ensures Copied(old(mem), mem, src, dst, n)
    {
      assert OkAt(blocks, brk, k);
      CopyOver(dst, src, n);
      PayloadWrite(old(mem), mem, blocks, head, brk, k);
    }

    /** memset to zero of n bytes; the last word keeps its bytes beyond n. */
    method ZeroOver(p: int, n: int)
      requires 0 <= n
      modifies this`mem
      ensures WritesOnly(old(mem), mem, p, p + n) && Wiped(mem, p, n)
      ensures n % 4 > 0 ==> Load(mem, p + n - n % 4) == ClearLow(Load(old(mem), p + n - n % 4), n % 4)
    {
      var i, whole := 0, n - n % 4;
      while i < whole
        invariant 0 <= i <= whole && i % 4 == 0
        invariant WritesOnly(old(mem), mem, p, p + i) && Zeroes(mem, p, i)
      {
        mem := mem[p + i := 0];
        i := i + 4;
      }
      if whole < n {
        ClearLowIsZero(Load(mem, p + whole), n - whole);
        mem := mem[p + whole := ClearLow(Load(mem, p + whole), n - whole)];
      }
    }

    /** Wiping n bytes in the payload of block k. */
    method ZeroFill(p: int, n: int, ghost k: nat)
      requires Valid() && IsLive(p, k) && 0 <= n <= blocks[k].size
      modifies this`mem
      ensures Valid() && AllKept(old(mem), mem, Live(blocks) - {blocks[k]})
      ensures Wiped(mem, p, n)
      ensures n % 4 > 0 ==> Load(mem, p + n - n % 4) == ClearLow(Load(old(mem), p + n - n % 4), n % 4)
    {
      assert OkAt(blocks, brk, k);
      ZeroOver(p, n);
      PayloadWrite(old(mem), mem, blocks, head, brk, k);
    }

    /** An allocation whose result, if it is a pointer, is traced to its block. */
    method AllocBlock(size: u32) returns (r: AllocResult, ghost k: nat, ghost done: nat)
      requires Valid()
      modifies this
      ensures !r.PastBreak? ==> Valid() && AllKept(old(mem), mem, Live(old(blocks)))
      ensures size == 0 ==> r == Null && blocks == old(blocks)
      ensures size > 0 ==> Outcome(old(blocks), old(brk), old(frames), Align8(size), blocks, r, done)
      ensures !r.Ptr? ==> Live(blocks) == Live(old(blocks)) && (r.PastBreak? ==> r.p == brk + 16)
      ensures r.Ptr? ==> IsLive(r.p, k) && OkAt(blocks, brk, k)
                         && (size <= 0xFFFF_FFF8 ==> size <= blocks[k].size < size + 56)
                         && Live(blocks) == Live(old(blocks)) + {blocks[k]} && blocks[k] !in Live(old(blocks))
    {
      r, done := AllocRaw(size);
      k := 0;
      if r.Ptr? {
        Align8Twice(size);
        Align8Covers(size);
        k := PtrBlock(old(blocks), old(brk), old(frames), Align8(size), blocks, brk, r, done);
        assert OkAt(blocks, brk, k);
      }
    }

    /**
     kzalloc. When the memset is longer than the block it wipes everything up to the break,
     and then runs on over whatever lies above.
     */
    method Kzalloc(size: u32) returns (r: AllocResult, ghost k: nat, ghost q: AllocResult, ghost done: nat)
      requires Valid()
      modifies this
      ensures !r.Overrun? ==> Valid() && AllKept(old(mem), mem, Live(old(blocks)))
      ensures size == 0 ==> q == Null && blocks == old(blocks)
      ensures size > 0 ==> Outcome(old(blocks), old(brk), old(frames), Align8(size), blocks, q, done)
      ensures r == FinalResult(q, size)
      ensures r.Overrun? ==> Wiped(mem, q.p, brk - q.p)
      ensures r.Ptr? ==> IsLive(r.p, k) && size <= blocks[k].size < size + 56 && Wiped(mem, r.p, size)
                         && Live(blocks) == Live(old(blocks)) + {blocks[k]} && blocks[k] !in Live(old(blocks))
    {
      r, k, done := AllocBlock(size);
      q := r;
      if r.PastBreak? { return Overrun, 0, q, done; }
      if r.Ptr? {
        if size > 0xFFFF_FFF8 {
          ZeroOver(r.p, brk - r.p);
          r := Overrun;
          return;
        }
        ghost var m := mem;
        ZeroFill(r.p, size, k);
        AllKeptTrans(old(mem), m, mem, Live(old(blocks)));
      }
    }

    /**
     The end of krealloc: allocate, copy, free. A copy into a block that is too short is
     followed, a free after it is not; nor is a copy to a block at the break.
     */
    method MoveBlock(ptr: u32, size: u32, blkSize: int, ghost k: nat)
        returns (r: AllocResult, ghost k': nat, ghost t: Attempt)
      requires Valid() && IsLive(ptr, k) && ptr != 0 && blkSize == blocks[k].size < size
      modifies this
      ensures !r.Overrun? ==> Valid()
      ensures AttemptOk(old(blocks), old(brk), old(frames), size, t) && r == FinalResult(t.result, size)
      ensures r.Null? || r.Panic? ==> AllKept(old(mem), mem, Live(old(blocks))) && Live(old(blocks)) <= Live(blocks)
      ensures t.result.Ptr? && r.Overrun? ==> Copied(old(mem), mem, ptr, t.result.p, blkSize)
      ensures r.Ptr? ==> size <= 0xFFFF_FFF8 && IsLive(r.p, k') && blocks[k'].size >= size && r.p != ptr
                         && Live(blocks) == Live(old(blocks)) - {old(blocks)[k]} + {blocks[k']}
                         && AllKept(old(mem), mem, Live(old(blocks)) - {old(blocks)[k]})
                         && Copied(old(mem), mem, ptr, r.p, blkSize)
    {
      ghost var b, bs, m := blocks[k], blocks, mem;
      ghost var done;
      assert OkAt(blocks, brk, k);
      r, k', done := AllocBlock(size);
      t := Attempt(blocks, r, done);
      if r.PastBreak? { return Overrun, 0, t; }
      if !r.Ptr? { return; }
      var fits;
      fits, k' := MoveTo(ptr, r.p, size, blkSize, b, k', m, Live(bs));
      if !fits { r := Overrun; }
    }

    /** The copy to the block that was allocated; without a fit it overruns. The memory was m before the allocation. */
    method MoveTo(ptr: u32, dst: int, size: u32, n: int, ghost b: Block, ghost k: nat, ghost m: Memory,
                  ghost live: set<Block>)
        returns (fits: bool, ghost k': nat)
      requires Valid() && IsLive(dst, k) && b in live && b.Payload() == ptr != 0 && b.size == n < size
      requires Live(blocks) == live + {blocks[k]} && blocks[k] !in live && AllKept(m, mem, live)
      requires size <= 0xFFFF_FFF8 ==> size <= blocks[k].size
      modifies this`mem, this`blocks, this`usedBytes
      ensures fits <==> size <= 0xFFFF_FFF8
      ensures Copied(m, mem, ptr, dst, n)
      ensures fits ==> Valid() && IsLive(dst, k') && blocks[k'].size >= size && dst != ptr
                       && Live(blocks) == live - {b} + {blocks[k']} && AllKept(m, mem, live - {b})
    {
      fits, k' := size <= 0xFFFF_FFF8, k;
      if fits {
        k' := MoveInto(ptr, dst, n, b, k, m, live);
      } else {
        MoveShort(ptr, dst, n, b, k, m);
      }
    }

    /** The case that does not fit: the copy alone. */
    method MoveShort(ptr: u32, dst: int, n: int, ghost b: Block, ghost k: nat, ghost m: Memory)
      requires Valid() && IsLive(dst, k) && b in blocks && blocks[k] != b && b.Payload() == ptr && b.size == n
      requires PayloadKept(m, mem, b)
      modifies this`mem
      ensures Copied(m, mem, ptr, dst, n)
    {
      ghost var m1 := mem;
      CopyGoesUp(blocks, brk, b, k);
      CopyOver(dst, ptr, n);
      CopiedKept(m, m1, mem, b, dst);
    }

    /** The case that fits: the old block is freed. */
    method MoveInto(ptr: u32, dst: int, n: int, ghost b: Block, ghost k: nat, ghost m: Memory, ghost live: set<Block>)
        returns (ghost k': nat)
      requires Valid() && IsLive(dst, k) && b in live && b.Payload() == ptr != 0
      requires n == b.size <= blocks[k].size
      requires Live(blocks) == live + {blocks[k]} && blocks[k] !in live && AllKept(m, mem, live)
      modifies this`mem, this`blocks, this`usedBytes
      ensures Valid() && IsLive(dst, k') && blocks[k'] == old(blocks)[k] && dst != ptr
      ensures Live(blocks) == live - {b} + {blocks[k']} && AllKept(m, mem, live - {b})
      ensures Copied(m, mem, ptr, dst, n)
    {
      ghost var j := ApartFromNew(blocks, brk, b, k);
      ghost var m1, b2 := mem, blocks[k];
      assert PayloadKept(m, m1, b);
      assert live - {b} <= Live(blocks) - {b, b2};
      k' := CopyAndFree(ptr, dst, n, j, k);
      CopiedKept(m, m1, mem, b, dst);
      AllKeptTrans(m, m1, mem, live - {b});
    }

    /** memcpy to the new block, then kfree of the old one. */
    method CopyAndFree(ptr: u32, dst: int, n: int, ghost j: nat, ghost k: nat) returns (ghost k': nat)
      requires Valid() && ptr != 0 && IsLive(ptr, j) && IsLive(dst, k) && j != k
      requires n == blocks[j].size <= blocks[k].size
      modifies this`mem, this`blocks, this`usedBytes
      ensures Valid() && IsLive(dst, k') && blocks[k'] == old(blocks)[k] && dst != ptr
      ensures Live(blocks) == Live(old(blocks)) - {old(blocks)[j]}
      ensures AllKept(old(mem), mem, Live(old(blocks)) - {old(blocks)[j], old(blocks)[k]})
      ensures Copied(old(mem), mem, ptr, dst, n)
    {
      ghost var b, c, m := blocks[j], blocks[k], mem;
      assert OkAt(blocks, brk, j) && OkAt(blocks, brk, k);
      if j < k { assert Before(blocks, j, k); } else { assert Before(blocks, k, j); }
      CopyInto(dst, ptr, n, k);
      ghost var m1 := mem;
      assert HeaderAt(mem, blocks, j);
      var panicked := FreeRaw(ptr, j);
      assert c in Live(blocks) && PayloadKept(m1, mem, c);
      k' :| 0 <= k' < |blocks| && blocks[k'] == c;
      AllKeptTrans(m, m1, mem, Live(old(blocks)) - {b, c});
    }

    /**
     krealloc: the bytes of the old block up to its size reappear at the result. When no
     memory is found it stays live, with its bytes, and the result is no pointer. The ghost
     result t is the allocation that was attempted, if one was needed.
     */
    method Krealloc(ptr: u32, size: u32, ghost k: nat) returns (r: AllocResult, ghost k': nat, ghost t: Attempt)
      requires Valid() && (ptr == 0 || IsLive(ptr, k))
      modifies this
      ensures !r.Overrun? && !r.PastBreak? ==> Valid()
      ensures ptr == 0 && size == 0 ==> r == Null && blocks == old(blocks)
      ensures ptr == 0 && size > 0
              ==> AttemptOk(old(blocks), old(brk), old(frames), size, t) && r == t.result
                  && blocks == t.blocks
      ensures ptr != 0 && size == 0 ==> r == Null && Live(blocks) == Live(old(blocks)) - {old(blocks)[k]}
      ensures ptr != 0 && 0 < size <= old(blocks)[k].size ==> r == Ptr(ptr) && blocks == old(blocks) && mem == old(mem)
      ensures ptr != 0 && size > old(blocks)[k].size ==>
                AttemptOk(old(blocks), old(brk), old(frames), size, t) && r == FinalResult(t.result, size)
      ensures (ptr == 0 && !r.PastBreak?) || (size != 0 && (r.Null? || r.Panic?))
              ==> AllKept(old(mem), mem, Live(old(blocks))) && Live(old(blocks)) <= Live(blocks)
      ensures r.Ptr? && size <= 0xFFFF_FFF8 ==> IsLive(r.p, k') && blocks[k'].size >= size
      ensures ptr != 0 && r.Ptr? ==>
                var b := old(blocks)[k];
                AllKept(old(mem), mem, Live(old(blocks)) - {b})
                && Copied(old(mem), mem, ptr, r.p, b.size)
                && (r.p != ptr
                    ==> k' < |blocks| && Live(blocks) == Live(old(blocks)) - {b} + {blocks[k']}
                        && b.size < size)
    {
      k', t := 0, Attempt(blocks, Null, 0);
      if ptr == 0 {
        ghost var done;
        r, done := AllocRaw(size);
        t := Attempt(blocks, r, done);
        if r.Ptr? {
          Align8Covers(size);
          k' := PtrBlock(old(blocks), old(brk), old(frames), Align8(size), blocks, brk, r, done);
        }
        return;
      }
      assert OkAt(blocks, brk, k) && HeaderAt(mem, blocks, k);
      if size == 0 {
        var panicked := FreeRaw(ptr, k);
        r := Null;
        return;
      }
      var blkSize := Load(mem, ptr - 16 + 4);
      if blkSize >= size {
        r, k' := Ptr(ptr), k;
        return;
      }
      r, k', t := MoveBlock(ptr, size, blkSize, k);
    }
  }

  /** An allocation that was attempted: the block list it left, its result, the pages it mapped. */
  datatype Attempt = Attempt(blocks: seq<Block>, result: AllocResult, done: int)

  ghost predicate AttemptOk(bs: seq<Block>, brk: int, frames: int, size: u32, t: Attempt) {
    Outcome(bs, brk, frames, Align8(size), t.blocks, t.result, t.done)
  }

  /** A block shorter than the bytes to be stored in it is an overrun, and so is one at the break. */
  ghost function FinalResult(q: AllocResult, size: u32): AllocResult {
    if q.PastBreak? || (q.Ptr? && size > 0xFFFF_FFF8) then Overrun else q
  }

  /** Where first fit looks once a new last block has been appended to a list without a fit. */
  lemma {:induction false} FitsAppended(bs: seq<Block>, b: Block, n: int, i: nat)
    requires i <= |bs| && FirstFit(bs, n, i) == |bs| && b.free
    ensures FirstFit(bs + [b], n, i) == if b.size >= n then |bs| else |bs| + 1
    decreases |bs| - i
  {
    if i < |bs| {
      FitsAppended(bs, b, n, i + 1);
    }
  }

  /** How a request of n bytes is served, for n that does not wrap; pages is what a growth takes. */
  ghost predicate Served(bs: seq<Block>, brk: int, frames: int, n: int, pages: int, bs': seq<Block>, r: AllocResult,
                         done: int) {
    var k := FirstFit(bs, n, 0);
    if k < |bs| then
      bs' == Take(bs, k, n) && r == Ptr(bs[k].addr + 16) && done == 0
    else if CanGrow(brk, frames, pages) then
      bs' == Take(bs + [Block(brk, 4096 * pages - 16, true)], |bs|, n) && r == Ptr(brk + 16) && done == pages
    else
      bs' == bs && r == Null && done < pages && !CanGrow(brk, frames, done + 1)
  }

  /**
   A size above 0xFFFF_FFF8 is rounded up to 0: the caller gets the first free block, cut down
   to no payload at all, or NULL after a growth whose retry sees the size 0.
   */
  ghost predicate TooShort(bs: seq<Block>, bs': seq<Block>, r: AllocResult) {
    var k := FirstFit(bs, 0, 0);
    if k < |bs| then bs' == Take(bs, k, 0) && r == Ptr(bs[k].addr + 16) else r == Null
  }

  /** The retry after a successful growth serves the request from the new block, without growing again. */
  lemma ServedByRetry(bs: seq<Block>, brk: int, frames: int, n: u32, d: nat, bs': seq<Block>, r: AllocResult, done: int)
    requires FirstFit(bs, n, 0) == |bs|
    requires 4096 * d - 16 >= n && CanGrow(brk, frames, d)
    requires Served(bs + [Block(brk, 4096 * d - 16, true)], brk + 4096 * d, frames - d, n, d, bs', r, done)
    ensures Served(bs, brk, frames, n, d, bs', r, done + d) && done == 0
  {
    var b := Block(brk, 4096 * d - 16, true);
    var bs1 := bs + [b];
    FitsAppended(bs, b, n, 0);
    assert FirstFit(bs1, n, 0) == |bs| && bs1[|bs|] == b;
    assert bs' == Take(bs1, |bs|, n) && r == Ptr(brk + 16) && done == 0;
  }

  /** The three regimes of a growth request. */
  lemma GrowCases(n: u32, growSize: u32)
    requires n % 8 == 0 && growSize == GrowSize(n)
    ensures growSize % 8 == 0
    ensures n <= 0xFFFF_EFF0 ==> GrowPages(growSize) == PagesFor(n) >= 1 && 4096 * PagesFor(n) - 16 >= n
    ensures 0xFFFF_EFF0 < n <= 0xFFFF_FFE8 <==> GrowPages(growSize) == 0
    ensures n > 0xFFFF_FFE8 ==> GrowPages(growSize) == 1
  {
    GrowArithmetic(n);
  }

  /** What heap_alloc_raw does with a nonzero size that is n after alignment. */
  ghost predicate Outcome(bs: seq<Block>, brk: int, frames: int, n: int, bs': seq<Block>, r: AllocResult, done: int) {
    if n == 0 then
      TooShort(bs, bs', r)
    else if n <= 0xFFFF_EFF0 then
      Served(bs, brk, frames, n, PagesFor(n), bs', r, done)
    else if n <= 0xFFFF_FFE8 then
      r == (if frames == 0 then Panic else PastBreak(brk + 16)) && bs' == bs && done == 0
    else
      r == Null && !CanGrow(brk + 4096 * done, frames - done, 1)
  }

  lemma RetryOutcome(bs: seq<Block>, brk: int, frames: int, n: u32, d: nat, bs': seq<Block>, r: AllocResult, done: int)
    requires n % 8 == 0 && (n <= 0xFFFF_EFF0 || n > 0xFFFF_FFE8) && FirstFit(bs, n, 0) == |bs|
    requires d == GrowPages(GrowSize(n)) && CanGrow(brk, frames, d)
    requires if n == 0 then r == Null
             else Outcome(bs + [Block(brk, 4096 * d - 16, true)], brk + 4096 * d, frames - d, n, bs', r, done)
    ensures Outcome(bs, brk, frames, n, bs', r, done + d)
  {
    GrowArithmetic(n);
    if 0 < n <= 0xFFFF_EFF0 {
      ServedByRetry(bs, brk, frames, n, d, bs', r, done);
    }
  }

  /** The aligned size is the least multiple of 8 that covers the request, or 0 if that would be 2^32. */
  lemma Align8Covers(size: u32)
    ensures Align8(size) >= size <==> size <= 0xFFFF_FFF8
    ensures if size <= 0xFFFF_FFF8 then Align8(size) % 8 == 0 && Align8(size) < size + 8 else Align8(size) == 0
  {
  }

  /**
   The block behind a returned pointer: new among the live ones, at least as long as the aligned
   size, and less than a split's worth longer.
   */
  lemma PtrBlock(bs: seq<Block>, brk: int, frames: int, n: u32, bs': seq<Block>, brk': int, r: AllocResult, done: nat)
      returns (k: nat)
    requires Ordered(bs, brk) && brk % 4096 == 0 && brk >= KHEAP_START && brk' == brk + 4096 * done
    requires n % 8 == 0 && r.Ptr? && Outcome(bs, brk, frames, n, bs', r, done)
    ensures k < |bs'| && !bs'[k].free && bs'[k].Payload() == r.p && n <= bs'[k].size < n + 48
    ensures Live(bs') == Live(bs) + {bs'[k]} && bs'[k] !in Live(bs)
  {
    k := FirstFit(bs, n, 0);
    if k < |bs| {
      TakeSpec(bs, k, n, brk);
      AddressIsNew(bs, brk, k);
    } else {
      var b := Block(brk, 4096 * done - 16, true);
      GrowArithmetic(n);
      NewBlockOk(brk, done);
      AppendSpec(bs, brk, b, brk');
      TakeSpec(bs + [b], k, n, brk');
      AddressIsNew(bs + [b], brk', k);
    }
  }

  /**
   As long as no growth fails part-way, the blocks stay without gaps, so headers and payloads
   add up to exactly the mapped bytes; in any case they never add up to more.
   */
  lemma ServedKeepsTiling(bs: seq<Block>, brk: int, frames: int, n: u32, bs': seq<Block>, r: AllocResult, done: nat)
    requires Ordered(bs, brk) && Tiled(bs, brk) && brk % 4096 == 0
    requires 0 < n <= 0xFFFF_EFF0 && n % 8 == 0 && Outcome(bs, brk, frames, n, bs', r, done)
    requires r.Ptr? || done == 0
    ensures Tiled(bs', brk + 4096 * done) && Footprint(bs') == brk + 4096 * done - KHEAP_START
  {
    var k, brk' := FirstFit(bs, n, 0), brk + 4096 * done;
    assert OkAt(bs, brk, 0);
    if k < |bs| {
      TakeSpec(bs, k, n, brk);
    } else if r.Ptr? {
      GrowArithmetic(n);
      GrownTiling(bs, brk, n, done);
    }
    FootprintExact(bs', brk');
  }

  /** The case of a successful growth. */
  lemma GrownTiling(bs: seq<Block>, brk: int, n: u32, done: nat)
    requires Ordered(bs, brk) && Tiled(bs, brk) && brk % 4096 == 0 && brk >= KHEAP_START
    requires 0 < n <= 4096 * done - 16 && n % 8 == 0 && brk + 4096 * done <= 0x1_0000_0000
    ensures var grown := bs + [Block(brk, 4096 * done - 16, true)];
            Ordered(Take(grown, |bs|, n), brk + 4096 * done) && Tiled(Take(grown, |bs|, n), brk + 4096 * done)
  {
    var b := Block(brk, 4096 * done - 16, true);
    NewBlockOk(brk, done);
    AppendSpec(bs, brk, b, brk + 4096 * done);
    TakeSpec(bs + [b], |bs|, n, brk + 4096 * done);
  }

  /** A payload that was kept and then copied. */
  lemma CopiedKept(m: Memory, m1: Memory, m2: Memory, b: Block, dst: int)
    requires PayloadKept(m, m1, b) && Copied(m1, m2, b.Payload(), dst, b.size)
    ensures Copied(m, m2, b.Payload(), dst, b.size)
  {
  }

  /** A block and a new one: they are different, and a copy from one to the other goes the right way. */
  lemma ApartFromNew(bs: seq<Block>, brk: int, b: Block, k: nat) returns (j: nat)
    requires Ordered(bs, brk) && b in bs && k < |bs| && bs[k] != b
    ensures j < |bs| && bs[j] == b && j != k
    ensures bs[k].Payload() <= b.Payload() || b.End() <= bs[k].Payload()
  {
    j :| 0 <= j < |bs| && bs[j] == b;
    PayloadsDisjoint(bs, brk, b, bs[k]);
    assert OkAt(bs, brk, j) && OkAt(bs, brk, k);
  }

  lemma CopyGoesUp(bs: seq<Block>, brk: int, b: Block, k: nat)
    requires Ordered(bs, brk) && b in bs && k < |bs| && bs[k] != b
    ensures b.size >= 0 && b.size % 4 == 0
    ensures bs[k].Payload() <= b.Payload() || b.Payload() + b.size <= bs[k].Payload()
  {
    var j := ApartFromNew(bs, brk, b, k);
    assert OkAt(bs, brk, j);
  }

  /** No live block has the address of a free one. */
  lemma AddressIsNew(bs: seq<Block>, brk: int, k: nat)
    requires Ordered(bs, brk) && k < |bs| && bs[k].free
    ensures forall b :: b in Live(bs) ==> b.addr != bs[k].addr
  {
    forall b | b in Live(bs)
      ensures b.addr != bs[k].addr
    {
      var i :| 0 <= i < |bs| && bs[i] == b;
      assert OkAt(bs, brk, i) && OkAt(bs, brk, k);
      if i < k { assert Before(bs, i, k); } else { assert Before(bs, k, i); }
    }
  }

  lemma Align8Twice(size: u32)
    ensures Align8(size) % 8 == 0 && Align8(Align8(size)) == Align8(size)
    ensures Align8(size) == 0 <==> size == 0 || size > 0xFFFF_FFF8
  {
    if size <= 0xFFFF_FFF8 {
      var q := (size + 7) / 8;
      assert Align8(size) == 8 * q && q < 0x2000_0000;
      AlignedStays(q);
    } else {
      assert Align8(size) == 0;
    }
  }

  lemma AlignedStays(q: nat)
    requires q < 0x2000_0000
    ensures Align8(8 * q) == 8 * q
  {
  }

  /** Stores at or above the break leave the list and all payloads alone. */
  lemma HeadersBelow(m: Memory, m': Memory, bs: seq<Block>, head: int, brk: int)
    requires Ordered(bs, brk) && Linked(m, bs, head)
    requires forall a :: a < brk ==> Load(m', a) == Load(m, a)
    ensures Linked(m', bs, head) && AllKept(m, m', Live(bs))
  {
    forall k | 0 <= k < |bs|
      ensures HeaderAt(m', bs, k) && PayloadKept(m, m', bs[k])
    {
      assert HeaderAt(m, bs, k) && OkAt(bs, brk, k);
    }
  }

  lemma OrderedGrows(bs: seq<Block>, brk: int, brk': int)
    requires Ordered(bs, brk) && brk <= brk'
    ensures Ordered(bs, brk')
  {
    forall i | 0 <= i < |bs|
      ensures OkAt(bs, brk', i)
    {
      assert OkAt(bs, brk, i);
    }
  }

  /** A freshly mapped page holds zeroes. */
  ghost predicate IsWiped(m: Memory, lo: int) {
    forall a :: lo <= a < lo + 4096 ==> Load(m, a) == 0
  }

  function WipePage(m: Memory, lo: int): (m': Memory)
    ensures WritesOnly(m, m', lo, lo + 4096) && IsWiped(m', lo)
  {
    map a | a in m && !(lo <= a < lo + 4096) :: m[a]
  }
}
