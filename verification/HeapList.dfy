/**
 The block list of kernal/mm/heap.c as a value: what first-fit allocation, splitting and
 coalescing do to it, and what they keep. Heap.dfy ties this value to the linked headers.
 */
module HeapList {
  const HEADER: int := 16
  const MIN_SPLIT: int := 32
  const KHEAP_START: int := 0xD000_0000
  const KHEAP_MAX: int := 0xDFFF_FFFF

  datatype Block = Block(addr: int, size: int, free: bool) {
    /** First byte after the payload. */
    function End(): int { addr + 16 + size }

    /** What kmalloc returns for this block. */
    function Payload(): int { addr + 16 }
  }

  // ------------------------------------------------------------------- the invariant

  predicate BlockOk(b: Block, brk: int) {
    b.addr % 8 == 0 && b.size % 8 == 0 && 0 <= b.size && KHEAP_START <= b.addr && b.End() <= brk
  }

  predicate OkAt(bs: seq<Block>, brk: int, i: nat)
    requires i < |bs|
  {
    BlockOk(bs[i], brk)
  }

  predicate Before(bs: seq<Block>, i: nat, j: nat)
    requires i < j < |bs|
  {
    bs[i].End() <= bs[j].addr
  }

  /** Blocks are 8-aligned, in address order, do not overlap, and stay below the break. */
  ghost predicate Ordered(bs: seq<Block>, brk: int) {
    (forall i :: 0 <= i < |bs| ==> OkAt(bs, brk, i))
    && forall i, j :: 0 <= i < j < |bs| ==> Before(bs, i, j)
  }

  /** Every byte from the heap start to the break belongs to a block. */
  ghost predicate Tiled(bs: seq<Block>, brk: int) {
    bs != [] && bs[0].addr == KHEAP_START && bs[|bs| - 1].End() == brk
    && forall i :: 0 <= i < |bs| - 1 ==> bs[i].End() == bs[i + 1].addr
  }

  function UsedBytes(bs: seq<Block>): int {
    if bs == [] then 0 else (if bs[0].free then 0 else bs[0].size) + UsedBytes(bs[1..])
  }

  /** Headers and payloads together. */
  function Footprint(bs: seq<Block>): int {
    if bs == [] then 0 else 16 + bs[0].size + Footprint(bs[1..])
  }

  /** The blocks in use. */
  ghost function Live(bs: seq<Block>): set<Block> {
    set b | b in bs && !b.free
  }

  ghost predicate NoAdjacentFree(bs: seq<Block>) {
    forall i :: 0 <= i < |bs| - 1 ==> !(bs[i].free && bs[i + 1].free)
  }

  lemma {:induction false} UsedConcat(a: seq<Block>, b: seq<Block>)
    ensures UsedBytes(a + b) == UsedBytes(a) + UsedBytes(b)
  {
    if a == [] {
      assert a + b == b;
    } else {
      UsedConcat(a[1..], b);
      assert (a + b)[1..] == a[1..] + b;
    }
  }

  lemma {:induction false} FootprintConcat(a: seq<Block>, b: seq<Block>)
    ensures Footprint(a + b) == Footprint(a) + Footprint(b)
  {
    if a == [] {
      assert a + b == b;
    } else {
      FootprintConcat(a[1..], b);
      assert (a + b)[1..] == a[1..] + b;
    }
  }

  /** The sums of a list in which the blocks i..j are replaced by mid. */
  lemma SumsReplace(bs: seq<Block>, i: nat, j: nat, mid: seq<Block>)
    requires i <= j <= |bs|
    ensures UsedBytes(bs[..i] + mid + bs[j..]) == UsedBytes(bs) + UsedBytes(mid) - UsedBytes(bs[i..j])
    ensures Footprint(bs[..i] + mid + bs[j..]) == Footprint(bs) + Footprint(mid) - Footprint(bs[i..j])
  {
    UsedConcat(bs[..i], mid);
    UsedConcat(bs[..i] + mid, bs[j..]);
    UsedConcat(bs[..i], bs[i..j]);
    UsedConcat(bs[..i] + bs[i..j], bs[j..]);
    FootprintConcat(bs[..i], mid);
    FootprintConcat(bs[..i] + mid, bs[j..]);
    FootprintConcat(bs[..i], bs[i..j]);
    FootprintConcat(bs[..i] + bs[i..j], bs[j..]);
    assert bs == bs[..i] + bs[i..j] + bs[j..];
  }

  /** Ordered blocks fit below the break, so their headers and payloads never exceed the mapped total. */
  lemma {:induction false} FootprintBound(bs: seq<Block>, lo: int, brk: int)
    requires Ordered(bs, brk) && lo <= brk && (bs != [] ==> lo <= bs[0].addr)
    ensures Footprint(bs) <= brk - lo
    ensures 0 <= UsedBytes(bs) <= Footprint(bs)
    decreases |bs|
  {
    if bs != [] {
      var rest := bs[1..];
      assert OkAt(bs, brk, 0);
      forall i | 0 <= i < |rest|
        ensures OkAt(rest, brk, i)
      {
        assert OkAt(bs, brk, i + 1);
      }
      forall i, j | 0 <= i < j < |rest|
        ensures Before(rest, i, j)
      {
        assert Before(bs, i + 1, j + 1);
      }
      if rest != [] {
        assert Before(bs, 0, 1);
      }
      FootprintBound(rest, bs[0].End(), brk);
    }
  }

  /** Without gaps the headers and payloads are exactly the mapped bytes. */
  lemma {:induction false} FootprintExact(bs: seq<Block>, brk: int)
    requires bs != [] && bs[|bs| - 1].End() == brk
    requires forall i :: 0 <= i < |bs| - 1 ==> bs[i].End() == bs[i + 1].addr
    ensures Footprint(bs) == brk - bs[0].addr
    decreases |bs|
  {
    if |bs| > 1 {
      assert forall i :: 0 <= i < |bs| - 1 ==> bs[1..][i] == bs[i + 1];
      FootprintExact(bs[1..], brk);
    }
  }

  // ---------------------------------------------------------------- first fit and split

  /** The first free block of at least n bytes at or after position i; |bs| when there is none. */
  function FirstFit(bs: seq<Block>, n: int, i: nat): (k: nat)
    requires i <= |bs|
    ensures i <= k <= |bs|
    ensures k < |bs| ==> bs[k].free && bs[k].size >= n
    ensures forall j :: i <= j < k ==> !(bs[j].free && bs[j].size >= n)
    decreases |bs| - i
  {
    if i == |bs| || (bs[i].free && bs[i].size >= n) then i else FirstFit(bs, n, i + 1)
  }

  /** What block i becomes when n bytes are allocated from it: itself, or a front part and a free rest. */
  function Pieces(b: Block, n: int): seq<Block> {
    if b.size < n + 48 then [b.(free := false)]
    else [Block(b.addr, n, false), Block(b.addr + 16 + n, b.size - n - 16, true)]
  }

  function Take(bs: seq<Block>, i: nat, n: int): seq<Block>
    requires i < |bs|
  {
    bs[..i] + Pieces(bs[i], n) + bs[i + 1..]
  }

  /** Allocation keeps the order and the footprint, and adds exactly one live block, of fitting size. */
  lemma TakeSpec(bs: seq<Block>, i: nat, n: int, brk: int)
    requires Ordered(bs, brk) && i < |bs| && bs[i].free && 0 <= n <= bs[i].size && n % 8 == 0
    ensures var r := Take(bs, i, n);
            Ordered(r, brk) && (Tiled(bs, brk) ==> Tiled(r, brk)) && Footprint(r) == Footprint(bs)
    ensures var r, b := Take(bs, i, n), Pieces(bs[i], n)[0];
            r[i] == b && b.addr == bs[i].addr && !b.free && n <= b.size < n + 48
            && UsedBytes(r) == UsedBytes(bs) + b.size && Live(r) == Live(bs) + {b}
            && (if bs[i].size >= n + 48 then b.size == n && |r| == |bs| + 1 && r[i + 1].free && r[i + 1].size >= 32
                else |r| == |bs|)
  {
    var b := Pieces(bs[i], n)[0];
    PiecesOrdered(bs, i, n, brk);
    SumsReplace(bs, i, i + 1, Pieces(bs[i], n));
    assert bs[i..i + 1] == [bs[i]];
    PiecesSums(bs[i], n);
    TakeLive(bs, i, n);
  }

  lemma PiecesSums(b: Block, n: int)
    requires b.free && 0 <= n <= b.size
    ensures Footprint(Pieces(b, n)) == Footprint([b])
    ensures UsedBytes(Pieces(b, n)) == Pieces(b, n)[0].size && UsedBytes([b]) == 0
  {
    var mid := Pieces(b, n);
    SumsOfOne(b);
    if |mid| == 2 {
      assert mid[1..] == [mid[1]];
      SumsOfOne(mid[1]);
    } else {
      SumsOfOne(mid[0]);
    }
  }

  lemma SumsOfOne(b: Block)
    ensures Footprint([b]) == 16 + b.size && UsedBytes([b]) == if b.free then 0 else b.size
  {
    assert [b][1..] == [];
  }

  lemma TakeLive(bs: seq<Block>, i: nat, n: int)
    requires i < |bs| && bs[i].free
    ensures Live(Take(bs, i, n)) == Live(bs) + {Pieces(bs[i], n)[0]}
  {
    var r, mid := Take(bs, i, n), Pieces(bs[i], n);
    forall b | b in Live(bs)
      ensures b in r
    {
      var k :| 0 <= k < |bs| && bs[k] == b;
      assert r[if k < i then k else k + |mid| - 1] == b;
    }
    assert r[i] == mid[0];
  }

  lemma PiecesOrdered(bs: seq<Block>, i: nat, n: int, brk: int)
    requires Ordered(bs, brk) && i < |bs| && 0 <= n <= bs[i].size && n % 8 == 0
    ensures Ordered(Take(bs, i, n), brk)
    ensures Tiled(bs, brk) ==> Tiled(Take(bs, i, n), brk)
  {
    var mid := Pieces(bs[i], n);
    var r := Take(bs, i, n);
    assert OkAt(bs, brk, i);
    forall k | 0 <= k < |r|
      ensures OkAt(r, brk, k)
    {
      if k < i { assert OkAt(bs, brk, k); }
      if k >= i + |mid| { assert OkAt(bs, brk, k - |mid| + 1); }
    }
    forall k, l | 0 <= k < l < |r|
      ensures Before(r, k, l)
    {
      var k', l' := Origin(i, |mid|, k), Origin(i, |mid|, l);
      if k' < l' { assert Before(bs, k', l'); }
    }
  }

  /** The block of the old list that position k of the new list comes from. */
  function Origin(i: nat, m: nat, k: nat): nat
    requires m >= 1
  {
    if k < i then k else if k < i + m then i else k - m + 1
  }

  // ----------------------------------------------------------------------- coalescing

  /** Blocks i and i + 1 become one free block. */
  function Merge(bs: seq<Block>, i: nat): (r: seq<Block>)
    requires i + 1 < |bs|
    ensures |r| == |bs| - 1
  {
    bs[..i] + [Block(bs[i].addr, bs[i].size + 16 + bs[i + 1].size, true)] + bs[i + 2..]
  }

  /** The coalescing loop of heap_free_raw from position i on. */
  function CoalesceFrom(bs: seq<Block>, i: nat): seq<Block>
    decreases |bs| - i
  {
    if i + 1 >= |bs| then bs
    else if bs[i].free && bs[i + 1].free then CoalesceFrom(Merge(bs, i), i)
    else CoalesceFrom(bs, i + 1)
  }

  lemma MergeOrdered(bs: seq<Block>, i: nat, brk: int)
    requires Ordered(bs, brk) && i + 1 < |bs| && bs[i].free && bs[i + 1].free
    ensures Ordered(Merge(bs, i), brk)
    ensures Tiled(bs, brk) ==> Tiled(Merge(bs, i), brk)
  {
    var r := Merge(bs, i);
    assert OkAt(bs, brk, i) && OkAt(bs, brk, i + 1) && Before(bs, i, i + 1);
    forall k | 0 <= k < |r|
      ensures OkAt(r, brk, k)
    {
      if k != i { assert OkAt(bs, brk, if k < i then k else k + 1); }
    }
    forall k, l | 0 <= k < l < |r|
      ensures Before(r, k, l)
    {
      var k', l' := if k < i then k else k + 1, if l <= i then l else l + 1;
      assert Before(bs, k', l');
    }
  }

  lemma MergeSums(bs: seq<Block>, i: nat)
    requires i + 1 < |bs| && bs[i].free && bs[i + 1].free
    ensures UsedBytes(Merge(bs, i)) == UsedBytes(bs) && Footprint(Merge(bs, i)) == Footprint(bs)
  {
    var m := Block(bs[i].addr, bs[i].size + 16 + bs[i + 1].size, true);
    SumsReplace(bs, i, i + 2, [m]);
    assert bs[i..i + 2] == [bs[i]] + [bs[i + 1]];
    UsedConcat([bs[i]], [bs[i + 1]]);
    FootprintConcat([bs[i]], [bs[i + 1]]);
    SumsOfOne(m);
    SumsOfOne(bs[i]);
    SumsOfOne(bs[i + 1]);
  }

  lemma MergeLive(bs: seq<Block>, i: nat)
    requires i + 1 < |bs| && bs[i].free && bs[i + 1].free
    ensures Live(Merge(bs, i)) == Live(bs)
  {
    forall b | b in Live(bs)
      ensures b in Merge(bs, i)
    {
      var k :| 0 <= k < |bs| && bs[k] == b;
      assert Merge(bs, i)[if k < i then k else k - 1] == b;
    }
  }

  /**
   A complete coalescing pass leaves no two neighbouring free blocks, touches no live block,
   and keeps order, footprint and used bytes.
   */
  lemma {:induction false} CoalesceSpec(bs: seq<Block>, i: nat, brk: int)
    requires Ordered(bs, brk)
    requires forall j :: 0 <= j < i && j + 1 < |bs| ==> !(bs[j].free && bs[j + 1].free)
    ensures var r := CoalesceFrom(bs, i);
            NoAdjacentFree(r) && Ordered(r, brk) && (Tiled(bs, brk) ==> Tiled(r, brk))
            && Live(r) == Live(bs) && UsedBytes(r) == UsedBytes(bs) && Footprint(r) == Footprint(bs)
    decreases |bs| - i
  {
    if i + 1 < |bs| {
      if bs[i].free && bs[i + 1].free {
        MergeOrdered(bs, i, brk);
        MergeSums(bs, i);
        MergeLive(bs, i);
        CoalesceSpec(Merge(bs, i), i, brk);
      } else {
        CoalesceSpec(bs, i + 1, brk);
      }
    }
  }

  /** Marking block i free removes it from the live blocks and its size from the used bytes. */
  lemma MarkFreeSpec(bs: seq<Block>, i: nat, brk: int)
    requires Ordered(bs, brk) && i < |bs| && !bs[i].free
    ensures var r := bs[i := bs[i].(free := true)];
            Ordered(r, brk) && (Tiled(bs, brk) ==> Tiled(r, brk)) && Live(r) == Live(bs) - {bs[i]}
            && UsedBytes(r) == UsedBytes(bs) - bs[i].size && Footprint(r) == Footprint(bs)
  {
    var f := bs[i].(free := true);
    var r := bs[i := f];
    SumsReplace(bs, i, i + 1, [f]);
    assert r == bs[..i] + [f] + bs[i + 1..] && bs[i..i + 1] == [bs[i]];
    SumsOfOne(bs[i]);
    SumsOfOne(f);
    forall k | 0 <= k < |r|
      ensures OkAt(r, brk, k)
    {
      assert OkAt(bs, brk, k);
    }
    forall k, l | 0 <= k < l < |r|
      ensures Before(r, k, l)
    {
      assert Before(bs, k, l);
    }
    forall b | b in Live(bs) && b != bs[i]
      ensures b in r
    {
      var k :| 0 <= k < |bs| && bs[k] == b;
      assert r[k] == b;
    }
    forall b | b in Live(r)
      ensures b in bs && b != bs[i]
    {
      var k :| 0 <= k < |r| && r[k] == b;
      assert bs[k] == b;
      if k < i { assert Before(bs, k, i) && OkAt(bs, brk, k); } else { assert Before(bs, i, k) && OkAt(bs, brk, i); }
    }
  }

  /** Payloads of different live blocks share no byte, and none lies over a header. */
  lemma PayloadsDisjoint(bs: seq<Block>, brk: int, a: Block, b: Block)
    requires Ordered(bs, brk) && a in bs && b in bs && a != b
    ensures a.End() <= b.addr || b.End() <= a.addr
  {
    var i :| 0 <= i < |bs| && bs[i] == a;
    var j :| 0 <= j < |bs| && bs[j] == b;
    if i < j { assert Before(bs, i, j); } else { assert Before(bs, j, i); }
  }

  /** A block appended at the break. */
  lemma AppendSpec(bs: seq<Block>, brk: int, b: Block, brk': int)
    requires Ordered(bs, brk) && brk <= b.addr && BlockOk(b, brk') && b.free
    ensures Ordered(bs + [b], brk') && Live(bs + [b]) == Live(bs)
    ensures UsedBytes(bs + [b]) == UsedBytes(bs) && Footprint(bs + [b]) == Footprint(bs) + 16 + b.size
    ensures Tiled(bs, brk) && b.addr == brk && b.End() == brk' ==> Tiled(bs + [b], brk')
  {
    var r := bs + [b];
    UsedConcat(bs, [b]);
    FootprintConcat(bs, [b]);
    SumsOfOne(b);
    forall k | 0 <= k < |r|
      ensures OkAt(r, brk', k)
    {
      if k < |bs| { assert OkAt(bs, brk, k); }
    }
    forall k, l | 0 <= k < l < |r|
      ensures Before(r, k, l)
    {
      if l < |bs| { assert Before(bs, k, l); } else { assert OkAt(bs, brk, k); }
    }
  }

  lemma {:induction false} CoalesceStable(bs: seq<Block>, i: nat)
    requires NoAdjacentFree(bs)
    ensures CoalesceFrom(bs, i) == bs
    decreases |bs| - i
  {
    if i + 1 < |bs| {
      CoalesceStable(bs, i + 1);
    }
  }

  lemma {:induction false} CoalesceSkip(bs: seq<Block>, i: nat, j: nat)
    requires i <= j < |bs| && forall k :: i <= k < j ==> !(bs[k].free && bs[k + 1].free)
    ensures CoalesceFrom(bs, i) == CoalesceFrom(bs, j)
    decreases j - i
  {
    if i < j {
      CoalesceSkip(bs, i + 1, j);
    }
  }

  /** kfree right after kmalloc restores the list exactly, when the heap was fully coalesced. */
  lemma FreeUndoesAlloc(bs: seq<Block>, i: nat, n: int, brk: int)
    requires Ordered(bs, brk) && NoAdjacentFree(bs)
    requires i < |bs| && bs[i].free && 0 <= n <= bs[i].size && n % 8 == 0
    ensures var t := Take(bs, i, n); CoalesceFrom(t[i := t[i].(free := true)], 0) == bs
  {
    var t := Take(bs, i, n);
    var r := t[i := t[i].(free := true)];
    assert forall k :: 0 <= k < i ==> r[k] == bs[k];
    assert forall k :: 0 <= k < i ==> !(bs[k].free && bs[k + 1].free);
    CoalesceSkip(r, 0, i);
    CoalesceStable(bs, i);
    if |Pieces(bs[i], n)| == 2 {
      assert Merge(r, i) == bs;
    } else {
      assert r == bs;
    }
  }
}
