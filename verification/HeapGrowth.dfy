/**
 heap_grow of kernal/mm/heap.c on the page allocator and the page tables: every page takes a
 frame, the first page of a 4 MB slot without a table takes a second one, and the result of
 the mapping is ignored. When the pages are really mapped, and what is left otherwise.
 */
module HeapGrowth {
  import opened Words
  import opened PhysAlloc
  import opened Paging

  // -------------------------------------------------------------- the frames of a growth

  /** The frames that the allocator can hand out; it never hands out frame 0. */
  ghost function Deliverable(used: seq<bool>): nat {
    if used == [] then 0 else CountFree(used[0 := true])
  }

  lemma DeliverableIff(used: seq<bool>)
    ensures Deliverable(used) > 0 <==> HasFree(used)
  {
    if used != [] {
      var u := used[0 := true];
      CountFreePositive(u);
      if false in u {
        var p :| 0 <= p < |u| && !u[p];
        assert FreeRun(used, p, 1);
      }
      if HasFree(used) {
        var s :| s < |used| && FreeRun(used, s, 1);
        assert !u[s];
      }
    }
  }

  lemma OneDelivered(used: seq<bool>, f: nat)
    requires 1 <= f < |used| && !used[f]
    ensures Deliverable(used[f := true]) == Deliverable(used) - 1
  {
    CountFreeUpdate(used[0 := true], f, true);
    assert used[f := true][0 := true] == used[0 := true][f := true];
  }

  /** The directory slot of page i from the break on. */
  function SlotOf(brk: int, i: nat): int {
    (brk + 4096 * i) / 0x40_0000
  }

  /** The number of pages heap_grow sets out to take. */
  function PagesFor(needed: u32): (p: nat)
    ensures if needed <= 0xFFFF_F000 then needed <= 4096 * p < needed + 4096 else p == 0
  {
    Wrap(needed + 4095) / 4096
  }

  /** Page i needs a table of its own: its slot has none, and no page before it made one. */
  predicate NeedsTable(pd: seq<u32>, brk: int, i: nat) {
    0 <= SlotOf(brk, i) < |pd| && !IsTable(pd[SlotOf(brk, i)]) && (i == 0 || SlotOf(brk, i - 1) != SlotOf(brk, i))
  }

  /** The frames that k pages take, tables included. */
  function Need(pd: seq<u32>, brk: int, k: nat): nat {
    if k == 0 then 0 else Need(pd, brk, k - 1) + if NeedsTable(pd, brk, k - 1) then 2 else 1
  }

  lemma {:induction false} NeedGrows(pd: seq<u32>, brk: int, j: nat, k: nat)
    requires j <= k
    ensures Need(pd, brk, j) + (k - j) <= Need(pd, brk, k)
    decreases k
  {
    if j < k { NeedGrows(pd, brk, j, k - 1); }
  }

  /** How many pages the frames are enough for. */
  function Budget(pd: seq<u32>, brk: int, free: nat, k: nat): (b: nat)
    requires Need(pd, brk, k) <= free
    ensures b >= k && Need(pd, brk, b) <= free < Need(pd, brk, b + 1)
    decreases free - Need(pd, brk, k)
  {
    if Need(pd, brk, k + 1) > free then k else Budget(pd, brk, free, k + 1)
  }

  /** The budget of pages that module Heap works with. */
  lemma BudgetIff(pd: seq<u32>, brk: int, free: nat, k: nat)
    ensures Need(pd, brk, k) <= free <==> k <= Budget(pd, brk, free, 0)
  {
    var b := Budget(pd, brk, free, 0);
    if k <= b { NeedGrows(pd, brk, k, b); } else { NeedGrows(pd, brk, b + 1, k); }
  }

  /** heap_init finds the slot at 0xD0000000 without a table, so its four pages take five frames. */
  lemma BootNeedsFive(pd: seq<u32>, free: nat)
    requires |pd| == 1024 && !IsTable(pd[832])
    ensures Budget(pd, 0xD000_0000, free, 0) >= 4 <==> free >= 5
  {
    var brk := 0xD000_0000;
    assert SlotOf(brk, 0) == SlotOf(brk, 1) == SlotOf(brk, 2) == SlotOf(brk, 3) == 832;
    assert Need(pd, brk, 1) == 2;
    assert Need(pd, brk, 2) == 3;
    assert Need(pd, brk, 3) == 4;
    assert Need(pd, brk, 4) == 5;
    BudgetIff(pd, brk, free, 4);
  }

  /** No heap page lies in a 4 MB window. */
  lemma SlotOfBreak(brk: u32)
    requires 0xD000_0000 <= brk <= 0xDFFF_F000
    ensures Pfn(brk) / 1024 == brk / 0x40_0000 && 832 <= brk / 0x40_0000 < 896 && !IsPse(brk / 0x40_0000)
  {
  }

  // -------------------------------------------------------------------------- the growth

  class Growth {
    const vm: AddressSpace
    var brk: u32

    constructor (a: AddressSpace, start: u32)
      ensures vm == a && brk == start
    {
      vm, brk := a, start;
    }

    ghost predicate Valid()
      reads this, vm, vm.pd, vm.pmm, vm.pmm.bitmap
    {
      vm.Valid() && brk % 4096 == 0 && 0xD000_0000 <= brk <= 0xDFFF_F000
    }

    /** The mapping of a new frame at the break; its result is ignored. */
    method MapNext(phys: u32) returns (ghost mapped: bool)
      requires Valid() && brk < 0xDFFF_F000 && phys % 4096 == 0
      modifies this, vm, vm.pd, vm.pmm, vm.pmm.bitmap
      ensures Valid() && brk == old(brk) + 4096
      ensures Mapped(old(vm.pd[..]), vm.pd[..], Deliverable(old(vm.pmm.used)), Deliverable(vm.pmm.used),
                     old(brk) / 0x40_0000, mapped)
      ensures vm.pages == if mapped then old(vm.pages)[Pfn(old(brk)) := phys] else old(vm.pages)
    {
      ghost var used, pd, slot := vm.pmm.used, vm.pd[..], brk / 0x40_0000;
      SlotOfBreak(brk);
      AddressOfFrame(phys);
      DeliverableIff(used);
      var r := vm.MapPage(brk, phys, 3);
      mapped := r == 0;
      if mapped {
        assert HoldsAt(vm.pd[..], vm.pmm.ram, vm.pages, Pfn(brk));
        if !IsTable(pd[slot]) { TableFrame(used, vm.pmm.used, pd, vm.pd[..], slot, PageDown(vm.pd[slot]), 3); }
      }
      brk := brk + 4096;
    }

    /** One round of the loop of heap_grow: a frame, and the mapping, whatever comes of it. */
    method GrowPage() returns (taken: bool, ghost mapped: bool, ghost phys: u32)
      requires Valid() && brk < 0xDFFF_F000
      modifies this, vm, vm.pd, vm.pmm, vm.pmm.bitmap
      ensures Valid() && brk == old(brk) + (if taken then 4096 else 0)
      ensures taken <==> Deliverable(old(vm.pmm.used)) > 0
      ensures !taken ==> vm.pd[..] == old(vm.pd[..]) && vm.pmm.used == old(vm.pmm.used) && vm.pages == old(vm.pages)
      ensures taken ==> Mapped(old(vm.pd[..]), vm.pd[..], Deliverable(old(vm.pmm.used)) - 1, Deliverable(vm.pmm.used),
                               old(brk) / 0x40_0000, mapped)
      ensures taken ==> vm.pages == if mapped then old(vm.pages)[Pfn(old(brk)) := phys] else old(vm.pages)
    {
      ghost var used := vm.pmm.used;
      DeliverableIff(used);
      var frame := vm.TakeFrame();
      phys, mapped := frame, false;
      if frame == 0 { return false, false, phys; }
      OneDelivered(used, Pfn(frame));
      mapped := MapNext(frame);
      taken := true;
    }

    /** n pages after the growth began at brk0 with these tables, frames and mappings. */
    ghost predicate Grown(pd: seq<u32>, brk0: int, free: nat, pages0: map<int, u32>, n: nat)
      reads this, vm, vm.pd, vm.pmm
    {
      brk == brk0 + 4096 * n && |pd| == 1024 && vm.pd.Length == 1024
      && Progress(pd, brk0, free, n, Deliverable(vm.pmm.used), vm.pd[..])
      && PagesMapped(pages0, vm.pages, pd, brk0, free, n)
    }

    /** The limit and a round, seen from the start of the growth. */
    method Round(ghost pd: seq<u32>, ghost brk0: int, ghost free: nat, ghost pages0: map<int, u32>, ghost i: nat)
      returns (taken: bool, ghost n: nat)
      requires Valid() && Grown(pd, brk0, free, pages0, i)
      modifies this, vm, vm.pd, vm.pmm, vm.pmm.bitmap
      ensures Valid() && n == (if taken then i + 1 else i)
      ensures Grown(pd, brk0, free, pages0, n)
      ensures !taken ==> brk == 0xDFFF_F000 || Deliverable(vm.pmm.used) == 0
    {
      n := i;
      if Wrap(brk + 4096) > 0xDFFF_FFFF { return false, i; }
      ghost var before, pd1, left, at := vm.pages, vm.pd[..], Deliverable(vm.pmm.used), brk;
      ghost var mapped, phys;
      taken, mapped, phys := GrowPage();
      if taken {
        RoundStep(pd, brk0, free, i, at, left, pd1, Deliverable(vm.pmm.used), vm.pd[..], mapped,
                  pages0, before, vm.pages, phys);
        n := i + 1;
      }
    }

    /**
     heap_grow. It takes pages as long as one frame is left and the limit is not reached; a
     page is mapped exactly if the frames are enough for it and its table, and the break moves
     in any case. Only the last page taken can be left without a mapping, and no frame is left
     then.
     */
    method Grow(needed: u32) returns (ok: bool, ghost done: nat)
      requires Valid()
      modifies this, vm, vm.pd, vm.pmm, vm.pmm.bitmap
      ensures Valid() && Grown(old(vm.pd[..]), old(brk), Deliverable(old(vm.pmm.used)), old(vm.pages), done)
      ensures done <= PagesFor(needed) && (ok <==> done == PagesFor(needed))
      ensures !ok ==> brk == 0xDFFF_F000 || Deliverable(vm.pmm.used) == 0
    {
      var pages := PagesFor(needed);
      ghost var pd, free, pages0, brk0 := vm.pd[..], Deliverable(vm.pmm.used), vm.pages, brk;
      GrowthStarts(pd, brk0, free, pages0);
      var i := 0;
      while i < pages
        invariant Valid() && 0 <= i <= pages
        invariant Grown(pd, brk0, free, pages0, i)
      {
        var taken; ghost var n;
        taken, n := Round(pd, brk0, free, pages0, i);
        if !taken { return false, i; }
        i := i + 1;
      }
      return true, i;
    }
  }

  /** What the mapping of one page does to tables and frames: it fails only for want of a table. */
  ghost predicate Mapped(pd: seq<u32>, pd': seq<u32>, left: int, left': int, slot: int, mapped: bool)
    requires |pd| == |pd'| == 1024
  {
    0 <= slot < 1024
    && (mapped <==> IsTable(pd[slot]) || left > 0)
    && left' == (if mapped && !IsTable(pd[slot]) then left - 1 else left)
    && (mapped ==> IsTable(pd'[slot]))
    && forall s :: 0 <= s < 1024 && s != slot ==> pd'[s] == pd[s]
  }

  lemma TableFrame(used: seq<bool>, used': seq<bool>, pd: seq<u32>, pd': seq<u32>, slot: nat, pt: int, flags: u32)
    requires slot < |pd| == |pd'| && pt != 0 && pt % 4096 == 0 && LowestRunTaken(used, used', Pfn(pt), 1)
    ensures Deliverable(used') == Deliverable(used) - 1
  {
    SingleFrame(used, Pfn(pt));
    OneDelivered(used, Pfn(pt));
  }

  lemma ProgressStep(pd: seq<u32>, brk: int, free: nat, i: nat, left: nat, pd1: seq<u32>, left': nat, pd2: seq<u32>,
                     mapped: bool)
    requires |pd| == |pd1| == |pd2| == 1024 && brk % 4096 == 0
    requires Progress(pd, brk, free, i, left, pd1) && left > 0
    requires Mapped(pd1, pd2, left - 1, left', SlotOf(brk, i), mapped)
    ensures Progress(pd, brk, free, i + 1, left', pd2) && (mapped <==> Need(pd, brk, i + 1) <= free)
  {
    SlotsAscend(brk, i);
  }

  lemma RoundStep(pd: seq<u32>, brk: int, free: nat, i: nat, at: int, left: nat, pd1: seq<u32>, left': nat,
                  pd2: seq<u32>, mapped: bool, pages0: map<int, u32>, pages: map<int, u32>, pages': map<int, u32>,
                  phys: u32)
    requires |pd| == |pd1| == |pd2| == 1024 && at % 4096 == 0 && at == brk + 4096 * i
    requires Progress(pd, brk, free, i, left, pd1) && left > 0
    requires Mapped(pd1, pd2, left - 1, left', at / 0x40_0000, mapped)
    requires PagesMapped(pages0, pages, pd, brk, free, i)
    requires pages' == if mapped then pages[Pfn(at) := phys] else pages
    ensures Progress(pd, brk, free, i + 1, left', pd2) && PagesMapped(pages0, pages', pd, brk, free, i + 1)
  {
    PageAligned(brk, i);
    ProgressStep(pd, brk, free, i, left, pd1, left', pd2, mapped);
    MappedSoFar(pages0, pages, pages', pd, brk, free, i, phys, mapped);
  }

  lemma PageAligned(brk: int, i: nat)
    requires (brk + 4096 * i) % 4096 == 0
    ensures brk % 4096 == 0
  {
  }

  /** No page taken yet. */
  lemma GrowthStarts(pd: seq<u32>, brk: int, free: nat, pages: map<int, u32>)
    requires |pd| == 1024
    ensures Progress(pd, brk, free, 0, free, pd) && PagesMapped(pages, pages, pd, brk, free, 0)
  {
  }

  lemma SlotsAscend(brk: int, i: nat)
    ensures i > 0 ==> SlotOf(brk, i - 1) <= SlotOf(brk, i)
  {
  }

  lemma MappedSoFar(pages0: map<int, u32>, pages: map<int, u32>, pages': map<int, u32>, pd: seq<u32>, brk: int,
                    free: nat, i: nat, phys: u32, mapped: bool)
    requires brk % 4096 == 0 && pages' == if mapped then pages[Pfn(brk + 4096 * i) := phys] else pages
    requires mapped <==> Need(pd, brk, i + 1) <= free
    requires PagesMapped(pages0, pages, pd, brk, free, i)
    ensures PagesMapped(pages0, pages', pd, brk, free, i + 1)
  {
    assert forall j :: 0 <= j ==> Pfn(brk + 4096 * j) == Pfn(brk) + j;
    assert SamePage(pages0, pages, Pfn(brk + 4096 * i));
    forall j | 0 <= j < i + 1
      ensures PageMapped(pages0, pages', pd, brk, free, j)
    {
      if j < i { assert PageMapped(pages0, pages, pd, brk, free, j); }
    }
    forall v | v < Pfn(brk) || Pfn(brk + 4096 * (i + 1)) <= v
      ensures SamePage(pages0, pages', v)
    {
      assert SamePage(pages0, pages, v);
    }
  }

  ghost predicate SamePage(pages: map<int, u32>, pages': map<int, u32>, v: int) {
    (v in pages' <==> v in pages) && (v in pages' ==> pages'[v] == pages[v])
  }

  /** Page i is mapped exactly if the frames are enough for it, or if it was before. */
  ghost predicate PageMapped(pages: map<int, u32>, pages': map<int, u32>, pd: seq<u32>, brk: int, free: nat, i: nat) {
    Pfn(brk + 4096 * i) in pages' <==> Need(pd, brk, i + 1) <= free || Pfn(brk + 4096 * i) in pages
  }

  /** The first n pages from the break on, and all others, which stay as they were. */
  ghost predicate PagesMapped(pages: map<int, u32>, pages': map<int, u32>, pd: seq<u32>, brk: int, free: nat, n: nat) {
    (forall i :: 0 <= i < n ==> PageMapped(pages, pages', pd, brk, free, i))
    && forall v :: v < Pfn(brk) || Pfn(brk + 4096 * n) <= v ==> SamePage(pages, pages', v)
  }

  /** After i pages: the frames left, and the tables there are. */
  ghost predicate Progress(pd: seq<u32>, brk: int, free: nat, i: nat, left: nat, pd': seq<u32>)
    requires |pd| == |pd'| == 1024
  {
    (forall j :: 0 <= j < i ==> Need(pd, brk, j) < free)
    && left == (if free < Need(pd, brk, i) then 0 else free - Need(pd, brk, i))
    && (i > 0 && left > 0 ==> 0 <= SlotOf(brk, i - 1) < 1024 && IsTable(pd'[SlotOf(brk, i - 1)]))
    && forall s :: 0 <= s < 1024 && (i == 0 || s > SlotOf(brk, i - 1)) ==> pd'[s] == pd[s]
  }

  /**
   The pages taken are those of the budget, or one more: the last page stays without a mapping
   exactly if it needs a table and only one frame was left for it.
   */
  lemma LastPageUnmappedIff(pd: seq<u32>, brk: int, free: nat, done: nat, left: nat, pd': seq<u32>)
    requires |pd| == |pd'| == 1024 && Progress(pd, brk, free, done, left, pd')
    ensures var b := Budget(pd, brk, free, 0);
            done <= b + 1 && (left == 0 ==> b <= done)
            && (done == b + 1 <==> done > 0 && NeedsTable(pd, brk, done - 1) && free == Need(pd, brk, done - 1) + 1)
  {
    var b := Budget(pd, brk, free, 0);
    BudgetIff(pd, brk, free, done);
    if done > 0 { BudgetIff(pd, brk, free, done - 1); }
    if done < b { NeedGrows(pd, brk, done, b); }
  }
}
