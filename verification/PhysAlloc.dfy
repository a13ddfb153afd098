/**
 The bitmap page allocator of kernal/mm/phys_alloc.c.

 The specification works on a sequence of booleans (true = used), one per page
 frame; the class packs the same information into 32-bit words, as the kernel does.
 */
module PhysAlloc {
  import opened Words

  const MAX_PAGES: int := 262144
  const ALL_FRAMES: int := 0x10_0000

  /** One 4 KB frame of physical memory, as 1024 words. */
  type Page = p: seq<u32> | |p| == 1024 witness seq(1024, i => 0)

  /** A wiped frame. */
  function ZeroPage(): (p: Page)
    ensures forall i :: 0 <= i < 1024 ==> p[i] == 0
  {
    seq(1024, i => 0)
  }

  // ---------------------------------------------------------------- specification

  /** Number of free frames. */
  function CountFree(used: seq<bool>): (n: nat)
    ensures n <= |used|
  {
    if used == [] then 0 else CountFree(used[..|used| - 1]) + if used[|used| - 1] then 0 else 1
  }

  /** The frames lo <= p < hi get the value v, all others keep theirs. */
  ghost function Fill(used: seq<bool>, lo: int, hi: int, v: bool): (r: seq<bool>)
    ensures |r| == |used|
    ensures forall p :: 0 <= p < |used| ==> r[p] == if lo <= p < hi then v else used[p]
  {
    seq(|used|, p requires 0 <= p < |used| => if lo <= p < hi then v else used[p])
  }

  /** The frames lo <= f < hi are wiped. */
  function Zeroed(ram: seq<Page>, lo: nat, hi: nat): (r: seq<Page>)
    requires lo <= hi <= |ram|
    ensures |r| == |ram|
    ensures forall f :: 0 <= f < |ram| ==> r[f] == if lo <= f < hi then ZeroPage() else ram[f]
  {
    ram[..lo] + ZeroPages(hi - lo) + ram[hi..]
  }

  function ZeroPages(n: nat): (r: seq<Page>)
    ensures |r| == n && forall f :: 0 <= f < n ==> r[f] == ZeroPage()
  {
    if n == 0 then [] else ZeroPages(n - 1) + [ZeroPage()]
  }

  lemma SingleFrame(used: seq<bool>, p: nat)
    requires p < |used|
    ensures Fill(used, p, p + 1, true) == used[p := true]
  {
  }

  lemma SingleWipe(ram: seq<Page>, p: nat)
    requires p < |ram|
    ensures Zeroed(ram, p, p + 1) == ram[p := ZeroPage()]
  {
  }

  /** count consecutive free frames from start on, none of them frame 0. */
  ghost predicate FreeRun(used: seq<bool>, start: int, count: nat) {
    1 <= start && start + count <= |used| && forall p :: start <= p < start + count ==> !used[p]
  }

  /** No run of count free frames starts below hi. */
  ghost predicate NoRunBelow(used: seq<bool>, hi: int, count: nat) {
    forall s :: s < hi ==> !FreeRun(used, s, count)
  }

  /** Between before and after, the lowest free run of count frames was taken and nothing else changed. */
  ghost predicate LowestRunTaken(before: seq<bool>, after: seq<bool>, start: int, count: nat) {
    FreeRun(before, start, count) && NoRunBelow(before, start, count)
        && after == Fill(before, start, start + count, true)
  }

  /**
   What an allocation of count frames does: it hands out the lowest free run, marks exactly
   that run used and wipes it; or it returns 0, changes nothing, and there is no such run.
   */
  ghost predicate Allocated(used: seq<bool>, ram: seq<Page>, used': seq<bool>, ram': seq<Page>, addr: int, count: nat)
    requires |used| <= |ram|
  {
    if addr == 0 then
      NoRunBelow(used, |used|, count) && used' == used && ram' == ram
    else
      addr % 4096 == 0 && LowestRunTaken(used, used', Pfn(addr), count)
      && ram' == Zeroed(ram, Pfn(addr), Pfn(addr) + count)
  }

  lemma {:induction false} CountFreeUpdate(used: seq<bool>, p: nat, v: bool)
    requires p < |used|
    ensures CountFree(used[p := v]) == CountFree(used) + (if used[p] then 1 else 0) - (if v then 1 else 0)
  {
    var n := |used| - 1;
    if p == n {
      assert used[p := v][..n] == used[..n];
    } else {
      assert used[p := v][..n] == used[..n][p := v];
      CountFreeUpdate(used[..n], p, v);
    }
  }

  /** Filling a uniformly opposite range changes the number of free frames by its length. */
  lemma {:induction false} CountFreeFill(used: seq<bool>, lo: nat, hi: nat, v: bool)
    requires lo <= hi <= |used|
    requires forall p :: lo <= p < hi ==> used[p] != v
    ensures CountFree(Fill(used, lo, hi, v)) == CountFree(used) + (if v then lo - hi else hi - lo)
    decreases hi - lo
  {
    if lo == hi {
      assert Fill(used, lo, hi, v) == used;
    } else {
      CountFreeFill(used, lo, hi - 1, v);
      CountFreeUpdate(Fill(used, lo, hi - 1, v), hi - 1, v);
      assert Fill(used, lo, hi - 1, v)[hi - 1 := v] == Fill(used, lo, hi, v);
    }
  }

  /** Some frame is free exactly when the count is positive. */
  lemma {:induction false} CountFreePositive(used: seq<bool>)
    ensures CountFree(used) > 0 <==> false in used
  {
    if used != [] {
      var n := |used| - 1;
      CountFreePositive(used[..n]);
      assert used == used[..n] + [used[n]];
    }
  }

  /** Freeing exactly the run an allocation took restores the bitmap, and with it the free count. */
  lemma FreeUndoesAlloc(used: seq<bool>, start: nat, count: nat)
    requires FreeRun(used, start, count)
    ensures Fill(Fill(used, start, start + count, true), start, start + count, false) == used
    ensures CountFree(Fill(used, start, start + count, true)) == CountFree(used) - count
  {
    CountFreeFill(used, start, start + count, true);
  }

  lemma UsedMeansNoRun(used: seq<bool>, hi: nat)
    requires forall p :: 1 <= p < hi && p < |used| ==> used[p]
    ensures NoRunBelow(used, hi, 1)
  {
    forall s | s < hi
      ensures !FreeRun(used, s, 1)
    {
      assert 1 <= s < |used| ==> used[s];
    }
  }

  /** Two runs handed out one after the other never share a frame. */
  lemma RunsDisjoint(used: seq<bool>, a: nat, m: nat, b: nat, n: nat)
    requires FreeRun(used, a, m) && FreeRun(Fill(used, a, a + m, true), b, n)
    requires m > 0 && n > 0
    ensures a + m <= b || b + n <= a
  {
    var after := Fill(used, a, a + m, true);
    var p := if a < b then b else a;
    var shared := p < |after| && after[p];
  }

  // -------------------------------------------------- ranges taken by mark_used / mark_free

  /** First frame pmm_mark_free touches. */
  function FreeLo(start: u32): int { Pfn(PageUp(start)) }

  /** End of the frames pmm_mark_free touches. */
  function FreeHi(end: u32): int { Pfn(PageDown(end)) }

  /** Frame p lies entirely inside the byte range [start, end). */
  predicate Inside(p: int, start: int, end: int) {
    start <= FrameAddr(p) && FrameAddr(p + 1) <= end
  }

  /** Frame p has a byte in [start, end). */
  predicate Touches(p: int, start: int, end: int) {
    start < end && start < FrameAddr(p + 1) && FrameAddr(p) < end
  }

  /** Rounding up and down picks the first frame starting at or after x, and the last ending at or before it. */
  lemma FrameRounding(x: nat, p: int)
    ensures (x + 4095) / 4096 <= p <==> x <= 4096 * p
    ensures p < x / 4096 <==> 4096 * (p + 1) <= x
  {
  }

  lemma RoundedUp(start: u32)
    requires start <= 0xFFFF_F000
    ensures FreeLo(start) == (start + 4095) / 4096
  {
    var q := (start + 4095) / 4096;
    assert PageUp(start) == 4096 * q;
  }

  lemma RoundedDown(end: u32)
    ensures FreeHi(end) == end / 4096
  {
    assert PageDown(end) == 4096 * (end / 4096);
  }

  /** Away from the wrap, pmm_mark_free takes exactly the frames that lie inside the range. */
  lemma MarkFreeExact(start: u32, end: u32, p: int)
    requires start <= 0xFFFF_F000
    ensures FreeLo(start) <= p < FreeHi(end) <==> Inside(p, start, end)
  {
    RoundedUp(start);
    RoundedDown(end);
    FrameRounding(start, p);
    FrameRounding(end, p);
  }

  /**
   pmm_mark_free keeps to the frames inside [start, end) exactly when rounding start up
   does not wrap past 2^32, or the range end frees nothing anyway.
   */
  lemma MarkFreeStaysInsideIff(start: u32, end: u32)
    ensures (forall p {:trigger Inside(p, start, end)} :: FreeLo(start) <= p < FreeHi(end) ==> Inside(p, start, end))
       <==> start <= 0xFFFF_F000 || end < 4096
  {
    if start <= 0xFFFF_F000 {
      forall p | FreeLo(start) <= p < FreeHi(end) ensures Inside(p, start, end) {
        MarkFreeExact(start, end, p);
      }
    } else {
      assert FreeLo(start) == 0;
      if end >= 4096 {
        assert FreeLo(start) <= 0 < FreeHi(end) && !Inside(0, start, end);
      }
    }
  }

  /** A start in the last page frees all of low memory instead of nothing. */
  lemma MarkFreeWrapExample()
    ensures FreeLo(0xFFFF_F001) == 0 && FreeHi(0xFFFF_FFFF) == 0xF_FFFF
    ensures !Inside(0, 0xFFFF_F001, 0xFFFF_FFFF)
  {
  }

  /**
   The header promises that pmm_mark_used rounds its end up; the code rounds it down. Every
   frame with a byte in the range is covered exactly when the range is empty or ends on a page.
   */
  lemma MarkUsedCoversIff(start: u32, end: u32)
    ensures (forall p {:trigger Touches(p, start, end)} :: Touches(p, start, end) ==> Pfn(start) <= p < Pfn(end))
       <==> start >= end || end % 4096 == 0
  {
    if start < end && end % 4096 != 0 {
      var p := Pfn(end);
      assert Touches(p, start, end);
    }
  }

  // ---------------------------------------------------------------- the packed bitmap

  /** The booleans that n bits of the word array stand for. */
  ghost function Unpack(words: seq<u32>, n: nat): (used: seq<bool>)
    requires n <= 32 * |words|
    ensures |used| == n
  {
    seq(n, p requires 0 <= p < n => Bit(words[p / 32], p % 32))
  }

  lemma UnpackSet(words: seq<u32>, n: nat, pfn: nat)
    requires n <= 32 * |words| && pfn < n
    ensures SetBit(words[pfn / 32], pfn % 32) < 0x1_0000_0000
    ensures Unpack(words[pfn / 32 := SetBit(words[pfn / 32], pfn % 32)], n) == Unpack(words, n)[pfn := true]
  {
    Pow2At32();
    SetBitSpec(words[pfn / 32], pfn % 32, 32);
  }

  lemma UnpackClear(words: seq<u32>, n: nat, pfn: nat)
    requires n <= 32 * |words| && pfn < n
    ensures ClearBit(words[pfn / 32], pfn % 32) < 0x1_0000_0000
    ensures Unpack(words[pfn / 32 := ClearBit(words[pfn / 32], pfn % 32)], n) == Unpack(words, n)[pfn := false]
  {
    ClearBitSpec(words[pfn / 32], pfn % 32);
  }

  lemma {:induction false} OnesHaveBits(k: nat, i: nat)
    requires i < k
    ensures Bit(Pow2(k) - 1, i)
  {
    if i > 0 {
      OnesHaveBits(k - 1, i - 1);
      assert (Pow2(k) - 1) / 2 == Pow2(k - 1) - 1;
    }
  }

  lemma UnpackOnes(words: seq<u32>, n: nat)
    requires n <= 32 * |words| && forall w :: 0 <= w < |words| ==> words[w] == 0xFFFF_FFFF
    ensures CountFree(Unpack(words, n)) == 0 && forall p :: 0 <= p < n ==> Unpack(words, n)[p]
  {
    forall p | 0 <= p < n ensures Unpack(words, n)[p] {
      Pow2At32();
      OnesHaveBits(32, p % 32);
    }
    CountFreePositive(Unpack(words, n));
  }

  /** Frame p is one of the count frames that a release starting at addr visits. */
  ghost predicate Released(addr: int, count: int, p: int) {
    exists i :: 0 <= i < count && Visits(addr, i, p)
  }

  predicate Visits(addr: int, i: int, p: int) {
    Pfn(Wrap(addr + FrameAddr(i))) == p
  }

  /** The bitmap after the first count addresses have been freed. */
  ghost predicate AllReleased(used: seq<bool>, used': seq<bool>, addr: int, count: int)
    requires |used| == |used'|
  {
    forall p :: 0 <= p < |used| ==> used'[p] == (used[p] && (p == 0 || !Released(addr, count, p)))
  }

  /** One turn of the loop in pmm_free_pages. */
  lemma ReleaseOneMore(used: seq<bool>, was: seq<bool>, now: seq<bool>, addr: int, i: nat)
    requires |used| == |was| == |now| && AllReleased(used, was, addr, i)
    requires var f := Pfn(Wrap(addr + FrameAddr(i)));
             now == if 1 <= f < |was| then was[f := false] else was
    ensures AllReleased(used, now, addr, i + 1)
  {
    forall p | 0 <= p < |used|
      ensures now[p] == (used[p] && (p == 0 || !Released(addr, i + 1, p)))
    {
      assert Visits(addr, i, p) == (p == Pfn(Wrap(addr + FrameAddr(i))));
      assert Released(addr, i + 1, p) == (Released(addr, i, p) || Visits(addr, i, p));
    }
  }

  /** Without wrap the frames visited are the count consecutive ones. */
  lemma ReleasedIsRange(addr: u32, count: nat, p: int)
    requires addr % 4096 == 0 && addr + FrameAddr(count) <= 0x1_0000_0000
    ensures Released(addr, count, p) == (Pfn(addr) <= p < Pfn(addr) + count)
  {
    if Pfn(addr) <= p < Pfn(addr) + count {
      assert Visits(addr, p - Pfn(addr), p);
    }
    forall i | 0 <= i < count
      ensures Visits(addr, i, p) == (p == Pfn(addr) + i)
    {
      assert Wrap(addr + FrameAddr(i)) == FrameAddr(Pfn(addr) + i);
    }
  }

  // --------------------------------------------------------------------- the allocator

  class Allocator {
    const totalPages: nat
    const bitmap: array<u32>
    var freePages: int
    var ram: seq<Page>  // the physical memory, frame by frame
    ghost var used: seq<bool>  // the abstract value: which frames are used

    constructor (total: nat, words: array<u32>, memory: seq<Page>)
      requires total <= MAX_PAGES && total <= 32 * words.Length && |memory| == ALL_FRAMES
      requires forall w :: 0 <= w < words.Length ==> words[w] == 0xFFFF_FFFF
      ensures totalPages == total && bitmap == words && ram == memory
      ensures Valid() && forall p :: 0 <= p < total ==> used[p]
    {
      totalPages, bitmap, ram, freePages := total, words, memory, 0;
      used := Unpack(words[..], total);
      UnpackOnes(words[..], total);
    }

    ghost predicate Valid()
      reads this, bitmap
    {
      totalPages <= MAX_PAGES && totalPages <= 32 * bitmap.Length && |ram| == ALL_FRAMES
      && used == Unpack(bitmap[..], totalPages) && freePages == CountFree(used)
    }

    method BitmapTest(pfn: nat) returns (b: bool)
      requires Valid() && pfn < totalPages
      ensures b == used[pfn]
    {
      b := Bit(bitmap[pfn / 32], pfn % 32);
    }

    method BitmapSet(pfn: nat)
      requires totalPages <= 32 * bitmap.Length && pfn < totalPages && used == Unpack(bitmap[..], totalPages)
      modifies this`used, bitmap
      ensures used == old(used)[pfn := true] == Unpack(bitmap[..], totalPages)
    {
      UnpackSet(bitmap[..], totalPages, pfn);
      ghost var words := bitmap[..];
      bitmap[pfn / 32] := SetBit(bitmap[pfn / 32], pfn % 32);
      assert bitmap[..] == words[pfn / 32 := SetBit(words[pfn / 32], pfn % 32)];
      used := used[pfn := true];
    }

    method BitmapClear(pfn: nat)
      requires totalPages <= 32 * bitmap.Length && pfn < totalPages && used == Unpack(bitmap[..], totalPages)
      modifies this`used, bitmap
      ensures used == old(used)[pfn := false] == Unpack(bitmap[..], totalPages)
    {
      UnpackClear(bitmap[..], totalPages, pfn);
      ghost var words := bitmap[..];
      bitmap[pfn / 32] := ClearBit(bitmap[pfn / 32], pfn % 32);
      assert bitmap[..] == words[pfn / 32 := ClearBit(words[pfn / 32], pfn % 32)];
      used := used[pfn := false];
    }

    /** The loop body of pmm_mark_used. */
    method Take(pfn: nat)
      requires Valid() && pfn < totalPages
      modifies this, bitmap
      ensures Valid() && used == old(used)[pfn := true] && ram == old(ram)
    {
      var taken := BitmapTest(pfn);
      if !taken {
        CountFreeUpdate(used, pfn, true);
        BitmapSet(pfn);
        if freePages > 0 { freePages := freePages - 1; }
      }
    }

    /** The loop body of pmm_mark_free, and the end of pmm_free_page. */
    method Release(pfn: nat)
      requires Valid() && pfn < totalPages
      modifies this, bitmap
      ensures Valid() && used == old(used)[pfn := false] && ram == old(ram)
    {
      var taken := BitmapTest(pfn);
      if taken {
        CountFreeUpdate(used, pfn, false);
        BitmapClear(pfn);
        freePages := freePages + 1;
      }
    }

    method MarkUsed(start: u32, end: u32)
      requires Valid()
      modifies this, bitmap
      ensures Valid() && used == Fill(old(used), Pfn(start), Pfn(end), true) && ram == old(ram)
    {
      var pfn, pfnEnd := Pfn(start), Pfn(end);
      while pfn < pfnEnd && pfn < totalPages
        invariant Valid() && Pfn(start) <= pfn && (pfn <= pfnEnd || pfn == Pfn(start))
        invariant used == Fill(old(used), Pfn(start), pfn, true) && ram == old(ram)
      {
        Take(pfn);
        pfn := pfn + 1;
      }
    }

    method MarkFree(start: u32, end: u32)
      requires Valid()
      modifies this, bitmap
      ensures Valid() && used == Fill(old(used), FreeLo(start), FreeHi(end), false) && ram == old(ram)
    {
      var pfn, pfnEnd := Pfn(PageUp(start)), Pfn(PageDown(end));
      while pfn < pfnEnd && pfn < totalPages
        invariant Valid() && FreeLo(start) <= pfn && (pfn <= pfnEnd || pfn == FreeLo(start))
        invariant used == Fill(old(used), FreeLo(start), pfn, false) && ram == old(ram)
      {
        Release(pfn);
        pfn := pfn + 1;
      }
    }

    /** The search loop of pmm_alloc_page: the lowest free frame above frame 0, or totalPages. */
    method FirstFree() returns (pfn: nat)
      requires Valid()
      ensures pfn < totalPages ==> FreeRun(used, pfn, 1) && NoRunBelow(used, pfn, 1)
      ensures pfn >= totalPages ==> NoRunBelow(used, totalPages, 1)
    {
      pfn := 1;
      while pfn < totalPages
        invariant 1 <= pfn
        invariant forall p :: 1 <= p < pfn && p < totalPages ==> used[p]
      {
        var taken := BitmapTest(pfn);
        if !taken { break; }
        pfn := pfn + 1;
      }
      UsedMeansNoRun(used, pfn);
    }

    /** pmm_alloc_page: the lowest free frame above frame 0, zeroed; 0 exactly when there is none. */
    method AllocPage() returns (addr: u32)
      requires Valid()
      modifies this, bitmap
      ensures Valid()
      ensures Allocated(old(used), old(ram), used, ram, addr, 1)
    {
      var pfn := FirstFree();
      if pfn >= totalPages { return 0; }
      SingleFrame(used, pfn);
      Claim(pfn);
      Wipe(pfn, 1);
      FrameOfAddress(pfn);
      return FrameAddr(pfn);
    }

    /** pmm_free_page: clears the frame's bit; frame 0 and frames beyond the bitmap are ignored. */
    method FreePage(addr: u32)
      requires Valid()
      modifies this, bitmap
      ensures Valid() && ram == old(ram)
      ensures used == if 1 <= Pfn(addr) < totalPages then old(used)[Pfn(addr) := false] else old(used)
    {
      var pfn := Pfn(addr);
      if pfn == 0 || pfn >= totalPages { return; }
      Release(pfn);
    }

    /** The search loop of pmm_alloc_pages: the start of the lowest free run of count frames, or 0. */
    method FirstRun(count: u32) returns (start: nat)
      requires Valid() && count > 0
      ensures start == 0 ==> NoRunBelow(used, totalPages, count)
      ensures start != 0 ==> FreeRun(used, start, count) && NoRunBelow(used, start, count)
    {
      var runStart, runLen := 0, 0;
      var pfn := 1;
      while pfn < totalPages
        invariant 1 <= pfn && 0 <= runLen < count
        invariant pfn <= totalPages || pfn == 1
        invariant runLen > 0 ==> runStart == pfn - runLen >= 1
        invariant pfn <= totalPages ==> forall p :: pfn - runLen <= p < pfn && runLen > 0 ==> !used[p]
        invariant NoRunBelow(used, pfn - runLen, count)
      {
        var taken := BitmapTest(pfn);
        if !taken {
          if runLen == 0 { runStart := pfn; }
          runLen := runLen + 1;
          if runLen == count { return runStart; }
        } else {
          forall s | s <= pfn
            ensures !FreeRun(used, s, count)
          {
            assert s >= pfn - runLen ==> pfn < s + count;
          }
          runLen := 0;
        }
        pfn := pfn + 1;
      }
      return 0;
    }

    /**
     pmm_alloc_pages: the lowest run of count free frames above frame 0, zeroed and marked used;
     0 exactly when count is 0 or no such run exists.
     */
    method AllocPages(count: u32) returns (addr: u32)
      requires Valid()
      modifies this, bitmap
      ensures Valid()
      ensures count > 0 ==> Allocated(old(used), old(ram), used, ram, addr, count)
      ensures count == 0 ==> addr == 0 && used == old(used) && ram == old(ram)
    {
      if count == 0 { return 0; }
      if count == 1 {
        addr := AllocPage();
        return;
      }
      var start := FirstRun(count);
      if start == 0 { return 0; }
      TakeRun(start, count);
      Wipe(start, count);
      FrameOfAddress(start);
      return FrameAddr(start);
    }

    /** The marking loop inside pmm_alloc_pages. */
    method TakeRun(start: nat, count: nat)
      requires Valid() && FreeRun(used, start, count)
      modifies this, bitmap
      ensures Valid() && used == Fill(old(used), start, start + count, true) && ram == old(ram)
    {
      var i := start;
      while i < start + count
        invariant start <= i <= start + count
        invariant Valid() && used == Fill(old(used), start, i, true) && ram == old(ram)
      {
        Claim(i);
        i := i + 1;
      }
    }

    /** A frame known to be free is marked and counted. */
    method Claim(pfn: nat)
      requires Valid() && pfn < totalPages && !used[pfn]
      modifies this, bitmap
      ensures Valid() && used == old(used)[pfn := true] && ram == old(ram)
    {
      CountFreeUpdate(used, pfn, true);
      BitmapSet(pfn);
      freePages := freePages - 1;
    }

    /** Wiping count frames from frame start on. */
    method Wipe(start: nat, count: nat)
      requires start + count <= |ram|
      modifies this`ram
      ensures ram == Zeroed(old(ram), start, start + count)
    {
      ram := Zeroed(ram, start, start + count);
    }

    /** pmm_free_pages: frees count frames from addr on; the address arithmetic wraps at 2^32. */
    method FreePages(addr: u32, count: u32)
      requires Valid()
      modifies this, bitmap
      ensures Valid() && ram == old(ram)
      ensures forall p :: 0 <= p < totalPages ==>
                used[p] == (old(used)[p] && (p == 0 || !Released(addr, count, p)))
    {
      var i := 0;
      while i < count
        invariant 0 <= i <= count && Valid() && ram == old(ram) && |used| == |old(used)|
        invariant AllReleased(old(used), used, addr, i)
      {
        ghost var was := used;
        FreePage(Wrap(addr + FrameAddr(i)));
        ReleaseOneMore(old(used), was, used, addr, i);
        i := i + 1;
      }
    }
  }

  /** pmm_free_pages after a successful pmm_alloc_pages puts the allocator back where it was. */
  method AllocThenFree(a: Allocator, count: u32) returns (addr: u32)
    requires a.Valid()
    modifies a, a.bitmap
    ensures a.Valid() && a.used == old(a.used) && a.freePages == old(a.freePages)
  {
    addr := a.AllocPages(count);
    if addr != 0 {
      a.FreePages(addr, count);
      forall p | 0 <= p < a.totalPages ensures a.used[p] == old(a.used)[p] {
        ReleasedIsRange(addr, count, p);
      }
      assert a.used == old(a.used);
    }
  }
}
