/**
 The two-level page tables of kernal/mm/paging.c.

 The abstract value is a finite map from virtual page numbers to physical page
 addresses for the 4 KB mappings; the 4 MB (PSE) windows that paging_init installs
 are fixed. Directory and page-table entries keep their real layout: the address in
 the upper 20 bits, PRESENT in bit 0, HUGE in bit 7. Page tables live in frames of
 physical memory that the page allocator handed out.
 */
module Paging {
  import opened Words
  import opened PhysAlloc

  predicate Present(e: u32) { e % 2 == 1 }

  predicate Huge(e: u32) { (e / 128) % 2 == 1 }

  /** Entries 0..63, 224..255 and 768..831 of the directory are 4 MB pages. */
  predicate IsPse(i: int) {
    0 <= i < 64 || 224 <= i < 256 || 768 <= i < 832
  }

  /** The directory entry paging_init writes at index i (PRESENT | WRITABLE | HUGE [| NOCACHE]). */
  function InitPde(i: nat): u32
    requires i < 1024
  {
    if i < 64 then i * 0x40_0000 + 0x83
    else if 224 <= i < 256 then i * 0x40_0000 + 0x93
    else if 768 <= i < 832 then (i - 768) * 0x40_0000 + 0x83
    else 0
  }

  /** Where a virtual address inside a 4 MB window leads. */
  function PseTarget(virt: u32): u32 {
    if virt >= 0xC000_0000 then virt - 0xC000_0000 else virt
  }

  /**
   What paging_init maps: 256 MB from address 0 on and 128 MB from 0x38000000 on to themselves,
   and 256 MB from 0xC0000000 on to address 0.
   */
  function BootTarget(virt: u32): Option<int> {
    if virt < 0x1000_0000 || 0x3800_0000 <= virt < 0x4000_0000 then Some(virt)
    else if 0xC000_0000 <= virt < 0xD000_0000 then Some(virt - 0xC000_0000)
    else None
  }

  /** The windows in the directory are those ranges of addresses. */
  lemma WindowRanges(virt: u32)
    ensures BootTarget(virt) == if IsPse(virt / 0x40_0000) then Some(PseTarget(virt)) else None
  {
  }

  /** The flag bits of a page-table entry: PRESENT | (flags & 0xFFF). */
  function PteFlags(flags: u32): (f: int)
    ensures 0 <= f < 4096 && f % 2 == 1 && f / 2 == (flags % 4096) / 2
  {
    if flags % 2 == 1 then flags % 4096 else flags % 4096 + 1
  }

  /** The flag bits of a directory entry: PRESENT | WRITABLE | (flags & USER). */
  function PdeFlags(flags: u32): int {
    if (flags / 4) % 2 == 1 then 7 else 3
  }

  // ------------------------------------------------------------- the abstract view

  /** What a virtual address translates to. */
  function Lookup(pages: map<int, u32>, virt: u32): Option<int> {
    if IsPse(virt / 0x40_0000) then Some(PseTarget(virt))
    else if Pfn(virt) in pages then Some(pages[Pfn(virt)] + virt % 4096)
    else None
  }

  /** The word a kernel access at virt reads. */
  function Seen(pages: map<int, u32>, ram: seq<Page>, virt: u32): Option<u32>
    requires |ram| == ALL_FRAMES
  {
    match Lookup(pages, virt)
    case None => None
    case Some(a) => if 0 <= a < 0x1_0000_0000 then Some(ram[Pfn(a)][(a % 4096) / 4]) else None
  }

  // ------------------------------------------------------ tables in physical memory

  predicate IsTable(e: u32) { Present(e) && !Huge(e) }

  /** The page-table entry in force for virtual page v; 0 when there is no table. */
  function Pte(pd: seq<u32>, ram: seq<Page>, v: nat): u32
    requires |pd| == 1024 && |ram| == ALL_FRAMES && v < ALL_FRAMES
  {
    if IsTable(pd[v / 1024]) then ram[Pfn(pd[v / 1024])][v % 1024] else 0
  }

  /** Directory shape: the 4 MB windows are intact, every table has a used frame of its own. */
  ghost predicate Tables(pd: seq<u32>, used: seq<bool>) {
    |pd| == 1024
    && (forall i :: 0 <= i < 1024 ==> SlotOk(pd, used, i))
    && (forall i, j :: 0 <= i < j < 1024 ==> Apart(pd, i, j))
  }

  ghost predicate SlotOk(pd: seq<u32>, used: seq<bool>, i: nat)
    requires i < |pd| == 1024
  {
    (if IsPse(i) then pd[i] == InitPde(i) && Present(pd[i]) && Huge(pd[i]) else pd[i] == 0 || IsTable(pd[i]))
    && (IsTable(pd[i]) ==> 1 <= Pfn(pd[i]) < |used| && used[Pfn(pd[i])])
  }

  ghost predicate Apart(pd: seq<u32>, i: nat, j: nat)
    requires i < j < |pd|
  {
    IsTable(pd[i]) && IsTable(pd[j]) ==> Pfn(pd[i]) != Pfn(pd[j])
  }

  /** The tables hold exactly the mappings of the abstract map. */
  ghost predicate Holds(pd: seq<u32>, ram: seq<Page>, pages: map<int, u32>)
    requires |pd| == 1024 && |ram| == ALL_FRAMES
  {
    (forall v :: v in pages ==> 0 <= v < ALL_FRAMES && !IsPse(v / 1024))
    && forall v :: 0 <= v < ALL_FRAMES && !IsPse(v / 1024) ==> HoldsAt(pd, ram, pages, v)
  }

  ghost predicate HoldsAt(pd: seq<u32>, ram: seq<Page>, pages: map<int, u32>, v: nat)
    requires |pd| == 1024 && |ram| == ALL_FRAMES && v < ALL_FRAMES
  {
    (Present(Pte(pd, ram, v)) <==> v in pages)
    && (v in pages ==> pages[v] == PageDown(Pte(pd, ram, v)))
  }

  /** Whether paging_map_page can succeed for virtual page vpn. */
  ghost predicate Mappable(pd: seq<u32>, used: seq<bool>, vpn: int)
    requires |pd| == 1024 && 0 <= vpn < ALL_FRAMES
  {
    !IsPse(vpn / 1024) && (IsTable(pd[vpn / 1024]) || HasFree(used))
  }

  /** A wiped frame at address pt became the table of slot i; entered present, writable and, if asked for, for users. */
  ghost predicate TableAdded(used: seq<bool>, ram: seq<Page>, pd: seq<u32>, used': seq<bool>, ram': seq<Page>,
                             pd': seq<u32>,
                             i: nat, pt: int, flags: u32)
    requires |used| <= |ram| && i < |pd|
  {
    pt != 0 && Allocated(used, ram, used', ram', pt, 1) && 0 <= pt + PdeFlags(flags) < 0x1_0000_0000
    && pd' == pd[i := pt + PdeFlags(flags)]
  }

  /** A new table, and in it the entry e for virtual page v. */
  ghost predicate MappedInNewTable(used: seq<bool>, ram: seq<Page>, pd: seq<u32>, used': seq<bool>, ram': seq<Page>,
                                   pd': seq<u32>,
                                   v: int, e: u32, flags: u32)
    requires |ram| == ALL_FRAMES && |used| <= ALL_FRAMES && |pd| == |pd'| == 1024 && 0 <= v < ALL_FRAMES
  {
    var pt := PageDown(pd'[v / 1024]);
    var ram1 := Zeroed(ram, Pfn(pt), Pfn(pt) + 1);
    TableAdded(used, ram, pd, used', ram1, pd', v / 1024, pt, flags) && ram' == StoreWord(ram1, Pfn(pt), v % 1024, e)
  }

  /** The table that get_or_alloc_pt has added, and one entry stored in it. */
  lemma InNewTable(used: seq<bool>, ram: seq<Page>, pd: seq<u32>, used': seq<bool>, ram1: seq<Page>, ram': seq<Page>,
                   pd': seq<u32>, v: int, pt: u32, e: u32, flags: u32)
    requires |ram| == ALL_FRAMES && |used| <= ALL_FRAMES && |pd| == |pd'| == 1024 && 0 <= v < ALL_FRAMES
    requires TableAdded(used, ram, pd, used', ram1, pd', v / 1024, pt, flags) && pt == PageDown(pd'[v / 1024])
    requires Pfn(pt) < |ram1| && ram' == StoreWord(ram1, Pfn(pt), v % 1024, e)
    ensures MappedInNewTable(used, ram, pd, used', ram', pd', v, e, flags)
  {
  }

  ghost predicate HasFree(used: seq<bool>) {
    !NoRunBelow(used, |used|, 1)
  }

  lemma InitPdeShape(i: nat)
    requires i < 1024
    ensures IsPse(i)
            ==> Present(InitPde(i)) && Huge(InitPde(i))
                && InitPde(i) - InitPde(i) % 0x40_0000 == (if i >= 768 then i - 768 else i) * 0x40_0000
    ensures !IsPse(i) ==> InitPde(i) == 0
  {
  }

  lemma DivideBy128(m: int, r: int)
    requires 0 <= r < 128
    ensures (128 * m + r) / 128 == m
  {
  }

  lemma ParityOfSum(a: int, b: int)
    ensures (2 * a + b) % 2 == b % 2
  {
  }

  lemma Bit7(q: int, f: int)
    requires 0 <= f < 4096
    ensures ((4096 * q + f) / 128) % 2 == (f / 128) % 2
  {
    var g := f / 128;
    DivideBy128(32 * q + g, f % 128);
    ParityOfSum(16 * q, g);
  }

  lemma EntryShape(base: u32, f: int)
    requires base % 4096 == 0 && 0 <= f < 4096
    ensures 0 <= base + f < 0x1_0000_0000 && PageDown(base + f) == base && Pfn(base + f) == Pfn(base)
    ensures Present(base + f) == (f % 2 == 1) && Huge(base + f) == ((f / 128) % 2 == 1)
  {
    var q := base / 4096;
    assert base == 4096 * q;
    Bit7(q, f);
  }

  /** One word of one frame gets a new value. */
  function StoreWord(ram: seq<Page>, f: nat, idx: nat, e: u32): (r: seq<Page>)
    requires f < |ram| && idx < 1024
    ensures |r| == |ram|
  {
    ram[f := ram[f][idx := e]]
  }

  /** A new empty table: nothing becomes mapped, nothing stops being mapped. */
  /** Freeing a frame that is no table leaves the tables alone. */
  lemma TablesKept(pd: seq<u32>, used: seq<bool>, used': seq<bool>, f: int)
    requires Tables(pd, used) && |used'| == |used| && forall p :: 0 <= p < |used| && p != f ==> used'[p] == used[p]
    requires forall i :: 0 <= i < 1024 && IsTable(pd[i]) ==> Pfn(pd[i]) != f
    ensures Tables(pd, used')
  {
    forall i | 0 <= i < 1024
      ensures SlotOk(pd, used', i)
    {
      assert SlotOk(pd, used, i);
    }
  }

  lemma NewTable(pd: seq<u32>, ram: seq<Page>, used: seq<bool>, pages: map<int, u32>, i: nat, f: nat, e: u32)
    requires Tables(pd, used) && |ram| == ALL_FRAMES && |used| <= ALL_FRAMES && Holds(pd, ram, pages)
    requires i < 1024 && !IsPse(i) && pd[i] == 0
    requires 1 <= f < |used| && !used[f]
    requires IsTable(e) && Pfn(e) == f
    ensures Tables(pd[i := e], used[f := true])
    ensures Holds(pd[i := e], ram[f := ZeroPage()], pages)
  {
    var pd', ram' := pd[i := e], ram[f := ZeroPage()];
    forall k | 0 <= k < 1024
      ensures SlotOk(pd', used[f := true], k) && (IsTable(pd[k]) ==> Pfn(pd[k]) != f)
    {
      assert SlotOk(pd, used, k);
    }
    forall k, l | 0 <= k < l < 1024
      ensures Apart(pd', k, l)
    {
      assert Apart(pd, k, l) && SlotOk(pd, used, k) && SlotOk(pd, used, l);
    }
    forall v | 0 <= v < ALL_FRAMES && !IsPse(v / 1024)
      ensures HoldsAt(pd', ram', pages, v)
    {
      assert HoldsAt(pd, ram, pages, v) && SlotOk(pd, used, v / 1024);
      if v / 1024 == i {
        assert Pte(pd', ram', v) == 0 == Pte(pd, ram, v);
      } else {
        assert Pte(pd', ram', v) == Pte(pd, ram, v);
      }
    }
  }

  /** Storing one entry of one table changes the mapping of exactly one virtual page. */
  lemma StoreEntry(pd: seq<u32>, ram: seq<Page>, used: seq<bool>, pages: map<int, u32>, v: nat, e: u32)
    requires Tables(pd, used) && |ram| == ALL_FRAMES && |used| <= ALL_FRAMES && Holds(pd, ram, pages)
    requires v < ALL_FRAMES && IsTable(pd[v / 1024]) && !IsPse(v / 1024)
    ensures Holds(pd, StoreWord(ram, Pfn(pd[v / 1024]), v % 1024, e),
                  if Present(e) then pages[v := PageDown(e)] else pages - {v})
  {
    var f := Pfn(pd[v / 1024]);
    var ram' := StoreWord(ram, f, v % 1024, e);
    var pages' := if Present(e) then pages[v := PageDown(e)] else pages - {v};
    forall w | 0 <= w < ALL_FRAMES && !IsPse(w / 1024)
      ensures HoldsAt(pd, ram', pages', w)
    {
      assert HoldsAt(pd, ram, pages, w);
      var a, b := v / 1024, w / 1024;
      if a < b { assert Apart(pd, a, b); } else if b < a { assert Apart(pd, b, a); }
      assert w != v ==> Pte(pd, ram', w) == Pte(pd, ram, w);
    }
  }

  /** What the page that contains virt translates to, at its first byte. */
  lemma PageTarget(pages: map<int, u32>, virt: u32)
    ensures PageDown(virt) / 0x40_0000 == virt / 0x40_0000 == Pfn(virt) / 1024 && Pfn(PageDown(virt)) == Pfn(virt)
    ensures PhysOf(Lookup(pages, PageDown(virt))) ==
              if IsPse(virt / 0x40_0000) then PseTarget(PageDown(virt))
              else if Pfn(virt) in pages then pages[Pfn(virt)] else 0
  {
    var q := virt / 4096;
    assert PageDown(virt) == 4096 * q;
    assert virt / 0x40_0000 == q / 1024;
    assert (4096 * q) / 0x40_0000 == q / 1024;
  }

  /** Taking a free frame and scribbling over it disturbs no table. */
  lemma FrameTaken(pd: seq<u32>, ram: seq<Page>, used: seq<bool>, pages: map<int, u32>, f: nat, p: Page)
    requires Tables(pd, used) && |ram| == ALL_FRAMES && |used| <= ALL_FRAMES && Holds(pd, ram, pages)
    requires f < |used| && !used[f]
    ensures Tables(pd, used[f := true]) && Holds(pd, ram[f := p], pages)
  {
    forall k | 0 <= k < 1024
      ensures SlotOk(pd, used[f := true], k) && (IsTable(pd[k]) ==> Pfn(pd[k]) != f)
    {
      assert SlotOk(pd, used, k);
    }
    forall v | 0 <= v < ALL_FRAMES && !IsPse(v / 1024)
      ensures HoldsAt(pd, ram[f := p], pages, v)
    {
      assert HoldsAt(pd, ram, pages, v);
      assert Pte(pd, ram[f := p], v) == Pte(pd, ram, v);
    }
  }

  /** Inside a 4 MB window the entry's base and the low 22 address bits give the target. */
  lemma WindowTarget(virt: u32)
    requires IsPse(virt / 0x40_0000)
    ensures var pde := InitPde(virt / 0x40_0000);
            pde - pde % 0x40_0000 + virt % 0x40_0000 == PseTarget(virt)
  {
    InitPdeShape(virt / 0x40_0000);
  }

  // ----------------------------------------------------------------- copy-on-write

  /** When copy-on-write succeeds. */
  ghost predicate Copyable(pages: map<int, u32>, used: seq<bool>, virt: u32) {
    Pfn(virt) in pages && pages[Pfn(virt)] != 0 && HasFree(used)
  }

  /** When copy-on-write fails and loses a frame: a 4 MB window, away from physical address 0. */
  ghost predicate LeaksFrame(used: seq<bool>, virt: u32) {
    IsPse(virt / 0x40_0000) && PseTarget(PageDown(virt)) != 0 && HasFree(used)
  }

  /**
   The step a successful copy-on-write takes for virtual page vpn: the lowest free frame f is
   taken, filled with the bytes of the old frame, and entered in the table, whose frame is pt.
   */
  ghost predicate CopyStep(pages: map<int, u32>, ram: seq<Page>, used: seq<bool>,
                           pages': map<int, u32>, ram': seq<Page>, used': seq<bool>, vpn: int, pt: nat, f: nat)
  {
    |ram| == ALL_FRAMES && |used| <= ALL_FRAMES && pt < ALL_FRAMES && vpn in pages
    && LowestRunTaken(used, used', f, 1)
    && pages' == pages[vpn := FrameAddr(f)]
    && ram' == StoreWord(CopiedFrame(ram, f, Pfn(pages[vpn])), pt, vpn % 1024, FrameAddr(f) + 7)
  }

  lemma CopyStepIs(pages: map<int, u32>, ram: seq<Page>, used: seq<bool>,
                   pages': map<int, u32>, ram': seq<Page>, used': seq<bool>, vpn: int, pt: nat, newPhys: u32)
    requires |ram| == ALL_FRAMES && |used| <= ALL_FRAMES && pt < ALL_FRAMES && vpn in pages && newPhys % 4096 == 0
    requires LowestRunTaken(used, used', Pfn(newPhys), 1) && pages' == pages[vpn := newPhys]
    requires ram' == StoreWord(CopiedFrame(ram, Pfn(newPhys), Pfn(pages[vpn])), pt, vpn % 1024, newPhys + 7)
    ensures vpn in pages' && CopyStep(pages, ram, used, pages', ram', used', vpn, pt, Pfn(pages'[vpn]))
  {
    AddressOfFrame(newPhys);
  }

  /** Frame f is wiped and then gets the contents of frame src. */
  function CopiedFrame(ram: seq<Page>, f: nat, src: nat): (r: seq<Page>)
    requires f < |ram| && src < |ram|
    ensures |r| == |ram|
  {
    ram[f := if src == f then ZeroPage() else ram[src]]
  }

  /** What an address that leads to physical address a reads once the copy is made. */
  ghost function ReadAfterCopy(ram: seq<Page>, src: nat, vpn: int, pt: nat, f: nat, a: int): Option<u32>
    requires |ram| == ALL_FRAMES && src < ALL_FRAMES && f < ALL_FRAMES
  {
    if a < 0 || a >= 0x1_0000_0000 then None
    else if Pfn(a) == f then Some(CopiedFrame(ram, f, src)[f][(a % 4096) / 4])
    else if Pfn(a) == pt && (a % 4096) / 4 == vpn % 1024 then Some(FrameAddr(f) + 7)
    else Some(ram[Pfn(a)][(a % 4096) / 4])
  }

  /**
   What every kernel access reads after copy-on-write: the page itself the same words, now
   through its new frame; every other address what it read before, except that the new frame
   shows the copy, and the one word of the page table the new entry. (A page mapped to a free
   frame can get that very frame, and then reads zeroes.)
   */
  lemma CopyPreservesView(pages: map<int, u32>, ram: seq<Page>, used: seq<bool>,
                          pages': map<int, u32>, ram': seq<Page>, used': seq<bool>, vpn: int, pt: nat, f: nat,
                          virt: u32)
    requires CopyStep(pages, ram, used, pages', ram', used', vpn, pt, f)
    requires pt < |used| && used[pt] && !IsPse(vpn / 1024)
    requires Pfn(virt) == vpn ==> pages[vpn] % 4096 == 0
    ensures Seen(pages', ram', virt)
         == if Pfn(virt) == vpn && Pfn(pages[vpn]) != f then Seen(pages, ram, virt)
            else match Lookup(pages, virt) case None => None
                 case Some(a) => ReadAfterCopy(ram, Pfn(pages[vpn]), vpn, pt, f, a)
  {
    assert virt / 0x40_0000 == Pfn(virt) / 1024;
    assert !used[f];
    if Pfn(virt) == vpn {
      FrameOfAddress(f);
      var o := virt % 4096;
      EntryShape(FrameAddr(f), o);
      EntryShape(pages[vpn], o);
      assert (FrameAddr(f) + o) % 4096 == o && (pages[vpn] + o) % 4096 == o;
    }
  }

  /** So an address that leads neither to the new frame nor to that word reads what it read before. */
  lemma OthersReadTheSame(pages: map<int, u32>, ram: seq<Page>, used: seq<bool>,
                          pages': map<int, u32>, ram': seq<Page>, used': seq<bool>, vpn: int, pt: nat, f: nat,
                          virt: u32)
    requires CopyStep(pages, ram, used, pages', ram', used', vpn, pt, f)
    requires pt < |used| && used[pt] && !IsPse(vpn / 1024)
    requires Pfn(virt) == vpn ==> pages[vpn] % 4096 == 0 && Pfn(pages[vpn]) != f
    requires Pfn(virt) != vpn
             ==> match Lookup(pages, virt) case None => true
                 case Some(a) => Pfn(a) != f && !(Pfn(a) == pt && (a % 4096) / 4 == vpn % 1024)
    ensures Seen(pages', ram', virt) == Seen(pages, ram, virt)
  {
    CopyPreservesView(pages, ram, used, pages', ram', used', vpn, pt, f, virt);
  }

  // ----------------------------------------------------------------- range mapping

  /** Mapping the first k pages of a range, one after the other; both addresses wrap at 2^32. */
  ghost function MapMany(pages: map<int, u32>, virt: u32, phys: u32, k: nat): map<int, u32> {
    if k == 0 then pages
    else MapMany(pages, virt, phys, k - 1)[Pfn(NthPage(virt, k - 1)) := PageDown(NthPage(phys, k - 1))]
  }

  /** addr + i * PAGE_SIZE in 32 bits */
  function NthPage(addr: u32, i: nat): u32 {
    Wrap(addr + FrameAddr(i))
  }

  /** The position of virtual page v in a range that starts at virt, counted around the address space. */
  function Position(virt: u32, v: int): int {
    if v >= Pfn(virt) then v - Pfn(virt) else v - Pfn(virt) + 0x10_0000
  }

  /**
   A mapped range in closed form: page v belongs to the range when its cyclic distance from
   the start is below k, and it then has the physical page at that same distance.
   */
  lemma {:induction false} MapManyPointwise(pages: map<int, u32>, virt: u32, phys: u32, k: nat, v: int)
    requires k <= ALL_FRAMES && 0 <= v < ALL_FRAMES
    ensures var m := MapMany(pages, virt, phys, k);
            if Position(virt, v) < k then v in m && m[v] == PageDown(NthPage(phys, Position(virt, v)))
            else (v in m <==> v in pages) && (v in m ==> m[v] == pages[v])
  {
    if k > 0 {
      MapManyPointwise(pages, virt, phys, k - 1, v);
      PositionOfStep(virt, k - 1, v);
    }
  }

  lemma PositionOfStep(virt: u32, i: nat, v: int)
    requires i < ALL_FRAMES && 0 <= v < ALL_FRAMES
    ensures Pfn(NthPage(virt, i)) == v <==> Position(virt, v) == i
  {
    var q, r := virt / 4096, virt % 4096;
    assert virt + FrameAddr(i) == 4096 * (q + i) + r;
    if q + i < 0x10_0000 {
      assert Wrap(virt + FrameAddr(i)) == 4096 * (q + i) + r;
    } else {
      assert Wrap(virt + FrameAddr(i)) == 4096 * (q + i - 0x10_0000) + r;
    }
    if v >= q {
      assert Position(virt, v) == v - q;
    } else {
      assert Position(virt, v) == v - q + 0x10_0000;
    }
  }

  // ------------------------------------------------------------------ the page tables

  class AddressSpace {
    const pmm: Allocator
    const pd: array<u32>
    ghost var pages: map<int, u32>  // the abstract value: the 4 KB mappings

    ghost predicate Valid()
      reads this, pd, pmm, pmm.bitmap
    {
      pmm.Valid() && pd.Length == 1024 && pmm.bitmap != pd
      && Tables(pd[..], pmm.used) && Holds(pd[..], pmm.ram, pages)
    }

    /** paging_init: the identity, MMIO and higher-half windows, and nothing else. */
    constructor (p: Allocator, dir: array<u32>)
      requires p.Valid() && dir.Length == 1024 && p.bitmap != dir
      modifies dir
      ensures Valid() && pages == map[] && pmm == p && pd == dir
      ensures forall virt: u32 :: Lookup(pages, virt) == BootTarget(virt)
    {
      pmm, pd := p, dir;
      new;
      forall i | 0 <= i < 1024 { pd[i] := 0; }
      for i := 0 to 64
        invariant forall j :: 0 <= j < 1024 ==> pd[j] == if j < i then InitPde(j) else 0
      {
        pd[i] := i * 0x40_0000 + 0x83;
      }
      for i := 224 to 240
        invariant forall j :: 0 <= j < 1024 ==> pd[j] == if j < i then InitPde(j) else 0
      {
        pd[i] := i * 0x40_0000 + 0x93;
      }
      for i := 240 to 256
        invariant forall j :: 0 <= j < 1024 ==> pd[j] == if j < i then InitPde(j) else 0
      {
        pd[i] := i * 0x40_0000 + 0x93;
      }
      for i := 0 to 64
        invariant forall j :: 0 <= j < 1024 ==> pd[j] == if j < 256 || 768 <= j < 768 + i then InitPde(j) else 0
      {
        pd[768 + i] := i * 0x40_0000 + 0x83;
      }
      forall i | 0 <= i < 1024
        ensures SlotOk(pd[..], p.used, i) && !IsTable(pd[i])
      {
        InitPdeShape(i);
      }
      pages := map[];
    }

    /**
     get_or_alloc_pt: the frame address of the table for directory slot pdIdx, or 0 when the
     slot is a 4 MB window, has no table and none may be created, or no frame is left.
     */
    method GetOrAllocPt(pdIdx: nat, create: bool, flags: u32) returns (pt: u32)
      requires Valid() && pdIdx < 1024
      modifies pd, pmm, pmm.bitmap
      ensures Valid()
      ensures pt != 0 ==> IsTable(pd[pdIdx]) && pt == PageDown(pd[pdIdx]) && !IsPse(pdIdx)
      ensures pt == 0 <==> IsPse(pdIdx) || (!old(IsTable(pd[pdIdx])) && (!create || !HasFree(old(pmm.used))))
      ensures pt == 0 || old(IsTable(pd[pdIdx]))
              ==> pmm.used == old(pmm.used) && pmm.ram == old(pmm.ram) && pd[..] == old(pd[..])
      ensures pt != 0 && !old(IsTable(pd[pdIdx])) ==>
                TableAdded(old(pmm.used), old(pmm.ram), old(pd[..]), pmm.used, pmm.ram, pd[..], pdIdx, pt, flags)
    {
      assert SlotOk(pd[..], pmm.used, pdIdx);
      var pde := pd[pdIdx];
      if Present(pde) {
        if Huge(pde) { return 0; }
        return PageDown(pde);
      }
      if !create { return 0; }
      pt := AddTable(pdIdx, flags);
    }

    /** The rest of get_or_alloc_pt: a new table in a frame of its own, for an empty slot. */
    method AddTable(pdIdx: nat, flags: u32) returns (frame: u32)
      requires Valid() && pdIdx < 1024 && pd[pdIdx] == 0 && !IsPse(pdIdx)
      modifies pd, pmm, pmm.bitmap
      ensures Valid() && (frame == 0 <==> !HasFree(old(pmm.used)))
      ensures frame == 0 ==> pmm.used == old(pmm.used) && pmm.ram == old(pmm.ram) && pd[..] == old(pd[..])
      ensures frame != 0 ==> IsTable(pd[pdIdx]) && frame == PageDown(pd[pdIdx])
      ensures frame != 0 ==>
                TableAdded(old(pmm.used), old(pmm.ram), old(pd[..]), pmm.used, pmm.ram, pd[..], pdIdx, frame, flags)
    {
      ghost var used, ram := pmm.used, pmm.ram;
      frame := pmm.AllocPage();
      if frame == 0 { return; }
      SingleFrame(used, Pfn(frame));
      SingleWipe(ram, Pfn(frame));
      assert Allocated(used, ram, pmm.used, pmm.ram, frame, 1);
      EntryShape(frame, PdeFlags(flags));
      var e: u32 := frame + PdeFlags(flags);
      NewTable(pd[..], ram, used, pages, pdIdx, Pfn(frame), e);
      ghost var dir := pd[..];
      pd[pdIdx] := e;
      assert pd[..] == dir[pdIdx := e];
    }

    /** paging_map_page: 0 and exactly one page remapped, or -1 and nothing changed. */
    method MapPage(virt: u32, phys: u32, flags: u32) returns (r: int)
      requires Valid()
      modifies this, pd, pmm, pmm.bitmap
      ensures Valid()
      ensures r == if Mappable(old(pd[..]), old(pmm.used), Pfn(virt)) then 0 else -1
      ensures pages == if r == 0 then old(pages)[Pfn(virt) := PageDown(phys)] else old(pages)
      ensures r != 0 || old(IsTable(pd[Pfn(virt) / 1024])) ==> pmm.used == old(pmm.used) && pd[..] == old(pd[..])
      ensures r != 0 ==> pmm.ram == old(pmm.ram)
      ensures r == 0 && old(IsTable(pd[Pfn(virt) / 1024])) ==>
                pmm.ram == StoreWord(old(pmm.ram), Pfn(pd[Pfn(virt) / 1024]), Pfn(virt) % 1024,
                    PageDown(phys) + PteFlags(flags))
      ensures r == 0 && !old(IsTable(pd[Pfn(virt) / 1024])) ==>
                MappedInNewTable(old(pmm.used), old(pmm.ram), old(pd[..]), pmm.used, pmm.ram, pd[..], Pfn(virt),
                    PageDown(phys) + PteFlags(flags), flags)
    {
      var pdIdx := virt / 0x40_0000;
      assert Pfn(virt) / 1024 == pdIdx;
      ghost var used, ram, dir := pmm.used, pmm.ram, pd[..];
      var pt := GetOrAllocPt(pdIdx, true, flags);
      if pt == 0 { return -1; }
      EntryShape(PageDown(phys), PteFlags(flags));
      var e: u32 := PageDown(phys) + PteFlags(flags);
      ghost var ram1 := pmm.ram;
      StorePte(Pfn(virt), pt, e);
      if !IsTable(dir[pdIdx]) {
        InNewTable(used, ram, dir, pmm.used, ram1, pmm.ram, pd[..], Pfn(virt), pt, e, flags);
      }
      return 0;
    }

    /** Storing e in the entry that governs virtual page vpn. */
    method StorePte(vpn: nat, pt: u32, e: u32)
      requires Valid() && vpn < ALL_FRAMES && !IsPse(vpn / 1024) && IsTable(pd[vpn / 1024])
               && pt == PageDown(pd[vpn / 1024])
      modifies this`pages, pmm`ram
      ensures Valid()
      ensures pages == if Present(e) then old(pages)[vpn := PageDown(e)] else old(pages) - {vpn}
      ensures pmm.ram == StoreWord(old(pmm.ram), Pfn(pt), vpn % 1024, e)
    {
      StoreEntry(pd[..], pmm.ram, pmm.used, pages, vpn, e);
      pmm.ram := StoreWord(pmm.ram, Pfn(pt), vpn % 1024, e);
      pages := if Present(e) then pages[vpn := PageDown(e)] else pages - {vpn};
    }

    /**
     paging_map_range: maps page after page until the first one that cannot be mapped.
     done is the number of pages that were mapped; they stay mapped on failure.
     */
    method MapRange(virt: u32, phys: u32, count: u32, flags: u32) returns (r: int, done: int)
      requires Valid()
      modifies this, pd, pmm, pmm.bitmap
      ensures Valid() && 0 <= done <= count
      ensures pages == MapMany(old(pages), virt, phys, done)
      ensures r == (if done == count then 0 else -1)
      ensures r != 0 ==> !Mappable(pd[..], pmm.used, Pfn(NthPage(virt, done)))
    {
      var i := 0;
      while i < count
        invariant Valid() && 0 <= i <= count
        invariant pages == MapMany(old(pages), virt, phys, i)
      {
        var v, p := NthPage(virt, i), NthPage(phys, i);
        var ok := MapPage(v, p, flags);
        if ok != 0 { return -1, i; }
        i := i + 1;
      }
      return 0, count;
    }

    /** paging_unmap_page: removes the 4 KB mapping if there is one; 4 MB windows are left alone. */
    method UnmapPage(virt: u32)
      requires Valid()
      modifies this, pd, pmm, pmm.bitmap
      ensures Valid() && pmm.used == old(pmm.used) && pd[..] == old(pd[..])
      ensures pages == old(pages) - {Pfn(virt)}
      ensures pmm.ram == if IsTable(pd[Pfn(virt) / 1024])
                         then StoreWord(old(pmm.ram), Pfn(pd[Pfn(virt) / 1024]), Pfn(virt) % 1024, 0)
                         else old(pmm.ram)
    {
      var pdIdx := virt / 0x40_0000;
      assert Pfn(virt) / 1024 == pdIdx;
      var pt := GetOrAllocPt(pdIdx, false, 0);
      if pt == 0 {
        assert SlotOk(pd[..], pmm.used, pdIdx);
        assert IsPse(pdIdx) || HoldsAt(pd[..], pmm.ram, pages, Pfn(virt));
        assert Pfn(virt) !in pages;
        return;
      }
      StorePte(Pfn(virt), pt, 0);
    }

    /** pmm_alloc_page: the new frame is wiped and is no page table. */
    method TakeFrame() returns (addr: u32)
      requires Valid()
      modifies pmm, pmm.bitmap
      ensures Valid() && addr % 4096 == 0
      ensures addr == 0 <==> !HasFree(old(pmm.used))
      ensures addr == 0 ==> pmm.used == old(pmm.used) && pmm.ram == old(pmm.ram)
      ensures addr != 0
              ==> LowestRunTaken(old(pmm.used), pmm.used, Pfn(addr), 1)
                  && pmm.used == old(pmm.used)[Pfn(addr) := true]
                  && pmm.ram == old(pmm.ram)[Pfn(addr) := ZeroPage()]
                  && forall i :: 0 <= i < 1024 && IsTable(pd[i]) ==> Pfn(pd[i]) != Pfn(addr)
    {
      ghost var used, ram := pmm.used, pmm.ram;
      addr := pmm.AllocPage();
      if addr == 0 { return; }
      ghost var f := Pfn(addr);
      SingleFrame(used, f);
      SingleWipe(ram, f);
      FrameTaken(pd[..], ram, used, pages, f, ZeroPage());
      forall i | 0 <= i < 1024 && IsTable(pd[i])
        ensures Pfn(pd[i]) != f
      {
        assert SlotOk(pd[..], used, i);
      }
    }

    /** A write through the identity window to a frame that is no page table. */
    method WriteFrame(f: nat, p: Page)
      requires Valid() && f < ALL_FRAMES
      requires forall i :: 0 <= i < 1024 && IsTable(pd[i]) ==> Pfn(pd[i]) != f
      modifies pmm`ram
      ensures Valid() && pmm.ram == old(pmm.ram)[f := p]
    {
      ghost var ram := pmm.ram;
      pmm.ram := pmm.ram[f := p];
      forall v | 0 <= v < ALL_FRAMES && !IsPse(v / 1024)
        ensures HoldsAt(pd[..], pmm.ram, pages, v)
      {
        assert HoldsAt(pd[..], ram, pages, v);
        assert Pte(pd[..], pmm.ram, v) == Pte(pd[..], ram, v);
      }
    }

    /** pmm_free_page on a frame that is no page table: the mappings are untouched. */
    method ReleaseFrame(phys: u32)
      requires Valid()
      requires forall i :: 0 <= i < 1024 && IsTable(pd[i]) ==> Pfn(pd[i]) != Pfn(phys)
      modifies pmm, pmm.bitmap
      ensures Valid() && pmm.ram == old(pmm.ram)
      ensures pmm.used == if 1 <= Pfn(phys) < pmm.totalPages then old(pmm.used)[Pfn(phys) := false] else old(pmm.used)
    {
      pmm.FreePage(phys);
      TablesKept(pd[..], old(pmm.used), pmm.used, Pfn(phys));
    }

    /** paging_get_phys: the abstract translation, with 0 standing for "not mapped". */
    method GetPhys(virt: u32) returns (phys: u32)
      requires Valid()
      ensures phys == PhysOf(Lookup(pages, virt))
    {
      var pde := pd[virt / 0x40_0000];
      assert SlotOk(pd[..], pmm.used, virt / 0x40_0000);
      assert Pfn(virt) / 1024 == virt / 0x40_0000;
      if !Present(pde) {
        assert HoldsAt(pd[..], pmm.ram, pages, Pfn(virt));
        return 0;
      }
      if Huge(pde) {
        WindowTarget(virt);
        return pde - pde % 0x40_0000 + virt % 0x40_0000;
      }
      assert HoldsAt(pd[..], pmm.ram, pages, Pfn(virt));
      var pte := pmm.ram[Pfn(pde)][(virt / 4096) % 1024];
      if !Present(pte) { return 0; }
      return PageDown(pte) + virt % 4096;
    }

    /**
     paging_copy_on_write: succeeds exactly when the page is mapped by a 4 KB entry to a frame
     other than frame 0 and a free frame exists. Inside a 4 MB window the call fails, after
     taking a frame that no mapping refers to.
     */
    method CopyOnWrite(virt: u32) returns (r: int)
      requires Valid()
      modifies this, pd, pmm, pmm.bitmap
      ensures Valid() && pd[..] == old(pd[..])
      ensures r == if Copyable(old(pages), old(pmm.used), virt) then 0 else -1
      ensures r == 0
              ==> Pfn(virt) in pages
                  && CopyStep(old(pages), old(pmm.ram), old(pmm.used), pages, pmm.ram, pmm.used,
                              Pfn(virt), Pfn(pd[Pfn(virt) / 1024]), Pfn(pages[Pfn(virt)]))
      ensures r != 0 ==> pages == old(pages)
      ensures r != 0 && !LeaksFrame(old(pmm.used), virt) ==> pmm.used == old(pmm.used) && pmm.ram == old(pmm.ram)
      ensures LeaksFrame(old(pmm.used), virt) ==> exists f :: LowestRunTaken(old(pmm.used), pmm.used, f, 1)
    {
      var oldPhys := GetPhys(PageDown(virt));
      PageTarget(pages, virt);
      if oldPhys == 0 { return -1; }
      assert SlotOk(pd[..], pmm.used, Pfn(virt) / 1024);
      assert IsPse(Pfn(virt) / 1024) || HoldsAt(pd[..], pmm.ram, pages, Pfn(virt));
      var newPhys := CopyToNewFrame(oldPhys);
      if newPhys == 0 { return -1; }
      r := MapCopy(PageDown(virt), newPhys);
      assert LowestRunTaken(old(pmm.used), pmm.used, Pfn(newPhys), 1);
      if r == 0 {
        assert oldPhys == old(pages)[Pfn(virt)];
        CopyStepIs(old(pages), old(pmm.ram), old(pmm.used), pages, pmm.ram, pmm.used,
                   Pfn(virt), Pfn(pd[Pfn(virt) / 1024]), newPhys);
      }
    }

    /** The mapping of paging_copy_on_write: a 4 KB page has its table already; in a 4 MB window it fails. */
    method MapCopy(page: u32, newPhys: u32) returns (r: int)
      requires Valid() && page % 4096 == 0 && newPhys % 4096 == 0
      requires IsPse(Pfn(page) / 1024) || IsTable(pd[Pfn(page) / 1024])
      modifies this, pd, pmm, pmm.bitmap
      ensures Valid() && pmm.used == old(pmm.used) && pd[..] == old(pd[..])
      ensures r == if IsPse(Pfn(page) / 1024) then -1 else 0
      ensures r != 0 ==> pages == old(pages) && pmm.ram == old(pmm.ram)
      ensures r == 0 ==> pages == old(pages)[Pfn(page) := newPhys]
      ensures r == 0 ==> pmm.ram == StoreWord(old(pmm.ram), Pfn(pd[Pfn(page) / 1024]), Pfn(page) % 1024, newPhys + 7)
    {
      AddressOfFrame(newPhys);
      assert PteFlags(7) == 7;
      assert SlotOk(pd[..], pmm.used, Pfn(page) / 1024);
      r := MapPage(page, newPhys, 7);
    }

    /** The allocation and the memcpy of paging_copy_on_write. */
    method CopyToNewFrame(oldPhys: u32) returns (newPhys: u32)
      requires Valid()
      modifies pmm, pmm.bitmap
      ensures Valid() && newPhys % 4096 == 0
      ensures newPhys == 0 <==> !HasFree(old(pmm.used))
      ensures newPhys == 0 ==> pmm.used == old(pmm.used) && pmm.ram == old(pmm.ram)
      ensures newPhys != 0 ==> LowestRunTaken(old(pmm.used), pmm.used, Pfn(newPhys), 1)
                               && pmm.ram == CopiedFrame(old(pmm.ram), Pfn(newPhys), Pfn(oldPhys))
    {
      newPhys := TakeFrame();
      if newPhys == 0 { return; }
      WriteFrame(Pfn(newPhys), pmm.ram[Pfn(oldPhys)]);
    }
  }

  /** What paging_get_phys returns for a translation. */
  function PhysOf(t: Option<int>): int {
    match t case None => 0 case Some(a) => a
  }

  /**
   0 means "not mapped", but also what addresses lead to physical address 0: 0 itself,
   0xC0000000, and the start of a page that is mapped to frame 0.
   */
  lemma ZeroIsAmbiguous(pages: map<int, u32>, virt: u32)
    ensures PhysOf(Lookup(pages, virt)) == 0
       <==> virt == 0 || virt == 0xC000_0000
            || (!IsPse(virt / 0x40_0000)
                && (Pfn(virt) !in pages || (pages[Pfn(virt)] == 0 && virt % 4096 == 0)))
  {
    if virt < 0x1000_0000 {
      assert IsPse(virt / 0x40_0000);
    }
    if 0xC000_0000 <= virt < 0xC040_0000 {
      assert virt / 0x40_0000 == 768;
    }
  }
}
