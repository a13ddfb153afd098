/**
 What a request above 0xFFFF_EFF0 bytes does to the kernel heap. heap_grow maps no page and
 reports success, so the new block lies at the break, over a page that demand paging maps;
 its size wraps to nearly 4 GB, and the header of the rest that heap_split makes of it wraps
 to an address below the break, inside the last page of the heap.
 */
module HeapWrap {
  import opened Words
  import opened RawMemory
  import opened HeapList
  import opened Heap

  /** An aligned request that makes the growth wrap to no page at all. */
  predicate Wraps(n: int) {
    n % 8 == 0 && 0xFFFF_EFF0 < n <= 0xFFFF_FFE8
  }

  /** A heap with its break, as far as these lemmas need it. */
  ghost predicate HeapAt(m: Memory, bs: seq<Block>, head: int, brk: int) {
    Ordered(bs, brk) && Linked(m, bs, head) && bs != [] && brk % 4096 == 0 && KHEAP_START <= brk <= 0xDFFF_F000
  }

  /** The memory after the request, as KernelHeap.AllocRaw leaves it. */
  ghost function After(m: Memory, bs: seq<Block>, brk: int, n: int): Memory
    requires bs != []
  {
    PastTake(PastHeader(m, bs[|bs| - 1].addr, brk), brk, n)
  }

  /** The four words of the header of the rest. */
  function RestWord(n: int, i: nat): int {
    if i == 0 then MAGIC_FREE else if i == 1 then Wrap(0xFFFF_FFE0 - n) else if i == 2 then 1 else 0
  }

  /** The header of the rest lies over payload of b. */
  predicate Touched(b: Block, brk: int, n: int) {
    b.size > 0 && PastRest(brk, n) < b.End() && b.Payload() < PastRest(brk, n) + 16
  }

  /** Payload of b that the header of the rest lies over already reads like it. */
  ghost predicate Agrees(m: Memory, b: Block, brk: int, n: int) {
    forall i :: 0 <= i < 4 ==> WordAgrees(m, b, brk, n, i)
  }

  ghost predicate WordAgrees(m: Memory, b: Block, brk: int, n: int, i: nat) {
    var a := PastRest(brk, n) + 4 * i;
    b.Payload() <= a < b.End() ==> Load(m, a) == RestWord(n, i)
  }

  /** What the stores do to a word below the break that is no link. */
  lemma WordAfter(m: Memory, bs: seq<Block>, brk: int, n: int, a: int)
    requires bs != [] && Wraps(n) && a < brk && a != bs[|bs| - 1].addr + 12
    ensures var rest := PastRest(brk, n);
            Load(After(m, bs, brk, n), a)
            == if Unsplit(n) || a < rest || rest + 16 <= a || (a - rest) % 4 != 0 then Load(m, a)
               else RestWord(n, (a - rest) / 4)
  {
  }

  /** No payload word is a link of the list. */
  lemma PayloadIsNoHeader(bs: seq<Block>, brk: int, b: Block, k: nat, a: int)
    requires Ordered(bs, brk) && b in bs && k < |bs| && b.Payload() <= a < b.End()
    ensures a < brk && !(bs[k].addr <= a < bs[k].addr + 16)
  {
    var j :| 0 <= j < |bs| && bs[j] == b;
    assert OkAt(bs, brk, j) && OkAt(bs, brk, k);
    if b != bs[k] { PayloadsDisjoint(bs, brk, b, bs[k]); }
  }

  /** One block keeps its payload exactly if the header of the rest brings nothing new there. */
  lemma BlockKeptIff(m: Memory, bs: seq<Block>, brk: int, n: int, b: Block)
    requires Ordered(bs, brk) && bs != [] && Wraps(n) && b in bs
    ensures PayloadKept(m, After(m, bs, brk, n), b) <==> Unsplit(n) || Agrees(m, b, brk, n)
  {
    var m', rest := After(m, bs, brk, n), PastRest(brk, n);
    forall a | b.Payload() <= a < b.End()
      ensures Load(m', a) == if Unsplit(n) || a < rest || rest + 16 <= a || (a - rest) % 4 != 0 then Load(m, a)
                             else RestWord(n, (a - rest) / 4)
    {
      PayloadIsNoHeader(bs, brk, b, |bs| - 1, a);
      WordAfter(m, bs, brk, n, a);
    }
    if !Unsplit(n) && Agrees(m, b, brk, n) {
      forall a | b.Payload() <= a < b.End()
        ensures Load(m', a) == Load(m, a)
      {
        if rest <= a < rest + 16 && (a - rest) % 4 == 0 { assert WordAgrees(m, b, brk, n, (a - rest) / 4); }
      }
    }
    if !Unsplit(n) && PayloadKept(m, m', b) {
      forall i | 0 <= i < 4
        ensures WordAgrees(m, b, brk, n, i)
      {
        var a := rest + 4 * i;
        assert (a - rest) / 4 == i;
      }
    }
  }

  /** All live payloads are kept exactly if nothing is split off, or all of them agree. */
  lemma AllKeptIff(m: Memory, bs: seq<Block>, head: int, brk: int, n: int)
    requires HeapAt(m, bs, head, brk) && Wraps(n)
    ensures AllKept(m, After(m, bs, brk, n), Live(bs))
       <==> Unsplit(n) || forall b :: b in Live(bs) ==> Agrees(m, b, brk, n)
  {
    forall b | b in Live(bs)
      ensures PayloadKept(m, After(m, bs, brk, n), b) <==> Unsplit(n) || Agrees(m, b, brk, n)
    {
      BlockKeptIff(m, bs, brk, n, b);
    }
  }

  lemma UntouchedAgrees(m: Memory, b: Block, brk: int, n: int)
    requires !Touched(b, brk, n)
    ensures Agrees(m, b, brk, n)
  {
    forall i | 0 <= i < 4
      ensures WordAgrees(m, b, brk, n, i)
    {
    }
  }

  /** A touched payload word that can hold anything: with another value there, the payload is lost. */
  lemma TouchedIsLost(m: Memory, bs: seq<Block>, head: int, brk: int, n: int, b: Block) returns (m2: Memory)
    requires HeapAt(m, bs, head, brk) && Wraps(n) && !Unsplit(n) && b in Live(bs) && Touched(b, brk, n)
    ensures Linked(m2, bs, head) && !AllKept(m2, After(m2, bs, brk, n), Live(bs))
  {
    var rest := PastRest(brk, n);
    var j :| 0 <= j < |bs| && bs[j] == b;
    assert OkAt(bs, brk, j);
    var i := TouchedWord(b, brk, n);
    var a := rest + 4 * i;
    m2 := m[a := RestWord(n, i) + 1];
    forall k | 0 <= k < |bs|
      ensures HeaderAt(m2, bs, k)
    {
      assert HeaderAt(m, bs, k);
      PayloadIsNoHeader(bs, brk, b, k, a);
    }
    assert !WordAgrees(m2, b, brk, n, i);
    BlockKeptIff(m2, bs, brk, n, b);
  }

  lemma TouchedWord(b: Block, brk: int, n: int) returns (i: nat)
    requires Touched(b, brk, n) && Wraps(n) && brk % 4096 == 0 && b.addr % 8 == 0 && b.size % 8 == 0
    ensures i < 4 && b.Payload() <= PastRest(brk, n) + 4 * i < b.End()
  {
    PageIsAligned(brk);
    RestIsAligned(brk, n);
    i := if b.Payload() <= PastRest(brk, n) then 0 else 2;
    if i == 2 { NextMultiple(PastRest(brk, n) - 16, b.addr); }
  }

  lemma RestIsAligned(brk: int, n: int)
    requires brk % 8 == 0 && n % 8 == 0
    ensures (PastRest(brk, n) - 16) % 8 == 0
  {
    var p, q := brk / 8, n / 8;
    assert PastRest(brk, n) - 16 == 8 * (p + q - 0x2000_0000);
  }

  lemma NextMultiple(x: int, y: int)
    requires x % 8 == 0 && y % 8 == 0 && x < y
    ensures x + 8 <= y
  {
    var p, q := x / 8, y / 8;
    assert x == 8 * p && y == 8 * q;
  }

  /**
   Whatever the blocks hold, a request that wraps keeps all live payloads exactly if it is the
   one whose rest is not split off, or the 16 bytes of that header touch no live payload.
   */
  lemma KeptForAllContentsIff(m0: Memory, bs: seq<Block>, head: int, brk: int, n: int)
    requires HeapAt(m0, bs, head, brk) && Wraps(n)
    ensures (forall m :: Linked(m, bs, head) ==> AllKept(m, After(m, bs, brk, n), Live(bs)))
       <==> Unsplit(n) || forall b :: b in Live(bs) ==> !Touched(b, brk, n)
  {
    if Unsplit(n) || forall b :: b in Live(bs) ==> !Touched(b, brk, n) {
      forall m | Linked(m, bs, head)
        ensures AllKept(m, After(m, bs, brk, n), Live(bs))
      {
        forall b | b in Live(bs) && !Unsplit(n)
          ensures Agrees(m, b, brk, n)
        {
          UntouchedAgrees(m, b, brk, n);
        }
        AllKeptIff(m, bs, head, brk, n);
      }
    } else {
      var b :| b in Live(bs) && Touched(b, brk, n);
      var m2 := TouchedIsLost(m0, bs, head, brk, n, b);
    }
  }

  /** A request of 0xFFFFF000 bytes writes the header into a live block that covers the last page. */
  lemma LastPageIsOverwritten(m: Memory, bs: seq<Block>, head: int, brk: int, b: Block)
    requires HeapAt(m, bs, head, brk) && b in Live(bs) && b.Payload() <= brk - 4080 && brk - 4064 <= b.End()
    ensures var m' := After(m, bs, brk, 0xFFFF_F000);
            Load(m', brk - 4080) == MAGIC_FREE && Load(m', brk - 4076) == 0xFE0
            && Load(m', brk - 4072) == 1 && Load(m', brk - 4068) == 0
    ensures Load(m, brk - 4080) != MAGIC_FREE ==> !AllKept(m, After(m, bs, brk, 0xFFFF_F000), Live(bs))
  {
    forall i | 0 <= i < 4
      ensures Load(After(m, bs, brk, 0xFFFF_F000), brk - 4080 + 4 * i) == RestWord(0xFFFF_F000, i)
    {
      PayloadIsNoHeader(bs, brk, b, |bs| - 1, brk - 4080 + 4 * i);
      WordAfter(m, bs, brk, 0xFFFF_F000, brk - 4080 + 4 * i);
    }
    assert Load(After(m, bs, brk, 0xFFFF_F000), brk - 4080 + 4 * 1) == 0xFE0;
    assert Load(After(m, bs, brk, 0xFFFF_F000), brk - 4080 + 4 * 2) == 1;
    assert Load(After(m, bs, brk, 0xFFFF_F000), brk - 4080 + 4 * 3) == 0;
    assert Load(After(m, bs, brk, 0xFFFF_F000), brk - 4080 + 4 * 0) == MAGIC_FREE;
  }
}
