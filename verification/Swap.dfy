/**
 Swapping of 4 KB pages to a disk partition, kernal/mm/swap.c, on top of the page
 tables and the page allocator. The disk is a sequence of 32-bit words, 128 to a
 sector; a transfer may fail and then leaves arbitrary words in its target.
 */
module Swap {
  import opened Words
  import opened PhysAlloc
  import opened Paging

  const LOOKUP_SIZE: int := 1024
  const SLOTS_MAX: int := 4096

  datatype Entry = Entry(virt: u32, slot: int)

  // ---------------------------------------------------------------- lookup table

  /** Index of the first entry at or after i that holds virt. */
  function FindVirt(t: seq<Entry>, virt: u32, i: nat): (k: nat)
    requires i <= |t|
    ensures i <= k <= |t|
    ensures k < |t| ==> t[k].virt == virt
    ensures forall j :: i <= j < k ==> t[j].virt != virt
    decreases |t| - i
  {
    if i == |t| || t[i].virt == virt then i else FindVirt(t, virt, i + 1)
  }

  /** The slot recorded for virt, -1 when there is none. */
  function SlotOf(t: seq<Entry>, virt: u32): int {
    var k := FindVirt(t, virt, 0);
    if k < |t| then t[k].slot else -1
  }

  /** lookup_set can record virt: it already has an entry, or an unused entry is left. */
  predicate Room(t: seq<Entry>, virt: u32) {
    FindVirt(t, virt, 0) < |t| || FindVirt(t, 0, 0) < |t|
  }

  /** Used entries come first, and no two of them hold the same page. */
  ghost predicate Compact(t: seq<Entry>) {
    (forall i, j :: 0 <= i < j < |t| && t[i].virt == 0 ==> t[j].virt == 0)
    && forall i, j :: 0 <= i < j < |t| && t[i].virt != 0 ==> t[i].virt != t[j].virt
  }

  /** The table after lookup_set(virt, slot). */
  function Recorded(t: seq<Entry>, virt: u32, slot: int): seq<Entry> {
    var k := Min(FindVirt(t, virt, 0), FindVirt(t, 0, 0));
    if k < |t| then t[k := Entry(virt, slot)] else t
  }

  /** lookup_set then lookup_get: the page reads back its slot, every other page keeps its own. */
  lemma RecordedSpec(t: seq<Entry>, virt: u32, slot: int, other: u32)
    requires Compact(t) && virt != 0 && other != 0
    ensures Compact(Recorded(t, virt, slot))
    ensures Room(t, virt) ==> SlotOf(Recorded(t, virt, slot), virt) == slot
    ensures !Room(t, virt) ==> Recorded(t, virt, slot) == t && SlotOf(t, virt) == -1
    ensures other != virt ==> SlotOf(Recorded(t, virt, slot), other) == SlotOf(t, other)
    ensures Room(t, other) ==> other != virt ==> FindVirt(t, other, 0) < |t| ==> Room(Recorded(t, virt, slot), other)
  {
    var v, z, w := FindVirt(t, virt, 0), FindVirt(t, 0, 0), FindVirt(t, other, 0);
    var k, t' := Min(v, z), Recorded(t, virt, slot);
    if k < |t| {
      FoundAt(t', virt, k);
      if other != virt { FoundAt(t', other, w); }
      RecordedCompact(t, virt, slot);
    }
  }

  /** The first match is found. */
  lemma {:induction false} FoundFrom(t: seq<Entry>, virt: u32, i: nat, k: nat)
    requires i <= k <= |t| && (forall j :: i <= j < k ==> t[j].virt != virt) && (k < |t| ==> t[k].virt == virt)
    ensures FindVirt(t, virt, i) == k
    decreases k - i
  {
    if i < k { FoundFrom(t, virt, i + 1, k); }
  }

  lemma FoundAt(t: seq<Entry>, virt: u32, k: nat)
    requires k <= |t| && (forall j :: 0 <= j < k ==> t[j].virt != virt) && (k < |t| ==> t[k].virt == virt)
    ensures FindVirt(t, virt, 0) == k && SlotOf(t, virt) == if k < |t| then t[k].slot else -1
  {
    FoundFrom(t, virt, 0, k);
  }

  lemma RecordedCompact(t: seq<Entry>, virt: u32, slot: int)
    requires Compact(t) && virt != 0
    ensures Compact(Recorded(t, virt, slot))
  {
    var v, z := FindVirt(t, virt, 0), FindVirt(t, 0, 0);
    var k, t' := Min(v, z), Recorded(t, virt, slot);
    if k < |t| {
      forall i, j | 0 <= i < j < |t'|
        ensures (t'[i].virt == 0 ==> t'[j].virt == 0) && (t'[i].virt != 0 ==> t'[i].virt != t'[j].virt)
      {
        assert t[i].virt == 0 ==> t[j].virt == 0;
        assert t[k].virt == 0 || t[k].virt == virt;
        if i == k && t[k].virt == 0 { assert t[j].virt == 0; }
        if j == k && t[k].virt == 0 { assert t[i].virt != virt; }
      }
    }
  }

  /** The pages with an entry, by address. */
  function Entered(t: seq<Entry>): set<u32> {
    set k | 0 <= k < |t| && t[k].virt != 0 :: t[k].virt
  }

  lemma EnteredNext(t: seq<Entry>, u: nat)
    requires u < |t| && t[u].virt != 0
    ensures Entered(t[..u + 1]) == Entered(t[..u]) + {t[u].virt}
  {
    forall x
      ensures x in Entered(t[..u + 1]) <==> x in Entered(t[..u]) || x == t[u].virt
    {
      if x in Entered(t[..u]) {
        var k :| 0 <= k < u && t[..u][k].virt == x != 0;
        assert t[..u + 1][k].virt == x;
      }
      assert t[..u + 1][u].virt == t[u].virt;
    }
  }

  /** Entries in use hold different pages. */
  lemma {:induction false} EnteredCount(t: seq<Entry>, u: nat)
    requires Compact(t) && u <= |t| && forall k :: 0 <= k < u ==> t[k].virt != 0
    ensures |Entered(t[..u])| == u
  {
    if u > 0 {
      EnteredCount(t, u - 1);
      EnteredNext(t, u - 1);
      assert forall k :: 0 <= k < u - 1 ==> t[k].virt != t[u - 1].virt;
    }
  }

  lemma EnteredPrefix(t: seq<Entry>, u: nat)
    requires u <= |t| && forall k :: u <= k < |t| ==> t[k].virt == 0
    ensures Entered(t[..u]) == Entered(t)
  {
    forall x
      ensures x in Entered(t[..u]) <==> x in Entered(t)
    {
      if x in Entered(t) {
        var k :| 0 <= k < |t| && t[k].virt == x != 0;
        assert t[..u][k].virt == x;
      }
    }
  }

  /** A page finds room exactly if it has an entry or fewer pages than entries have one. */
  lemma RoomIff(t: seq<Entry>, virt: u32)
    requires Compact(t) && virt != 0
    ensures Room(t, virt) <==> virt in Entered(t) || |Entered(t)| < |t|
  {
    var u := FindVirt(t, 0, 0);
    EnteredCount(t, u);
    assert forall k :: u < k < |t| ==> t[k].virt == 0;
    EnteredPrefix(t, u);
    assert FindVirt(t, virt, 0) < |t| ==> t[FindVirt(t, virt, 0)].virt in Entered(t);
  }

  /** No entry is ever dropped, and only the page that is set gets a new one. */
  lemma EnteredRecorded(t: seq<Entry>, virt: u32, slot: int)
    requires Compact(t) && virt != 0
    ensures Entered(t) <= Entered(Recorded(t, virt, slot)) <= Entered(t) + {virt}
  {
    var k, t' := Min(FindVirt(t, virt, 0), FindVirt(t, 0, 0)), Recorded(t, virt, slot);
    forall x | x in Entered(t)
      ensures x in Entered(t')
    {
      var i :| 0 <= i < |t| && t[i].virt == x != 0;
      assert i != k ==> t'[i].virt == x;
      assert i == k ==> t'[i].virt == x;
    }
  }

  // ------------------------------------------------------------------ swap state

  datatype Store = Store(pages: map<int, u32>, ram: seq<Page>, used: seq<bool>, pd: seq<u32>,
                         disk: seq<u32>, slots: seq<bool>, lookup: seq<Entry>, start: nat)

  /** Word position of a slot on the disk: eight 512-byte sectors from LBA start + 8 * slot. */
  function SlotPos(start: nat, slot: nat): nat { 128 * (start + 8 * slot) }

  lemma SlotOnDisk(start: nat, slot: nat, count: nat)
    requires slot < count && start + 8 * count <= 0x1_0000_0000
    ensures 128 * Wrap(start + slot * 8) == SlotPos(start, slot)
    ensures SlotPos(start, slot + 1) == SlotPos(start, slot) + 1024 <= SlotPos(start, count)
  {
  }

  ghost predicate Shape(st: Store) {
    |st.ram| == ALL_FRAMES && |st.used| <= MAX_PAGES && |st.pd| == 1024
    && |st.lookup| == LOOKUP_SIZE && |st.slots| <= SLOTS_MAX
    && SlotPos(st.start, |st.slots|) <= |st.disk|
  }

  function ReadSlot(st: Store, slot: nat): (p: Page)
    requires SlotPos(st.start, slot + 1) <= |st.disk|
  {
    st.disk[SlotPos(st.start, slot)..SlotPos(st.start, slot + 1)]
  }

  /** The disk after a transfer of p into a slot. */
  function WriteSlot(st: Store, slot: nat, p: Page): (disk: seq<u32>)
    requires SlotPos(st.start, slot + 1) <= |st.disk|
    ensures |disk| == |st.disk|
  {
    st.disk[..SlotPos(st.start, slot)] + p + st.disk[SlotPos(st.start, slot + 1)..]
  }

  /** Slots do not overlap on the disk. */
  lemma WriteThenRead(st: Store, slot: nat, p: Page, other: nat)
    requires Shape(st) && slot < |st.slots| && other < |st.slots|
    ensures ReadSlot(st.(disk := WriteSlot(st, slot, p)), other) == if other == slot then p else ReadSlot(st, other)
  {
    var d := WriteSlot(st, slot, p);
    var a, b := SlotPos(st.start, slot), SlotPos(st.start, other);
    assert other != slot ==> b + 1024 <= a || a + 1024 <= b;
    assert d[a..a + 1024] == p;
    assert other != slot ==> d[b..b + 1024] == st.disk[b..b + 1024];
  }

  /** Table entry k names a swapped-out page. */
  predicate Live(st: Store, k: nat)
    requires k < |st.lookup|
  {
    st.lookup[k].virt != 0 && st.lookup[k].slot >= 0
  }

  /** A live entry owns a reserved slot, and its page is unmapped but still has its page table. */
  ghost predicate EntryOk(st: Store, k: nat)
    requires |st.pd| == 1024 && k < |st.lookup|
  {
    var e := st.lookup[k];
    Live(st, k) ==>
      e.slot < |st.slots| && st.slots[e.slot] && e.virt % 4096 == 0
      && Pfn(e.virt) !in st.pages && !IsPse(Pfn(e.virt) / 1024) && IsTable(st.pd[Pfn(e.virt) / 1024])
  }

  /** Slot s is reserved exactly when a live entry owns it. */
  ghost predicate SlotOwned(st: Store, s: nat)
    requires s < |st.slots|
  {
    st.slots[s] <==> exists k :: 0 <= k < |st.lookup| && Live(st, k) && st.lookup[k].slot == s
  }

  /** The bookkeeping invariant: every reserved slot has exactly one live entry. */
  ghost predicate Inv(st: Store) {
    Shape(st) && Compact(st.lookup)
    && (forall k :: 0 <= k < |st.lookup| ==> EntryOk(st, k))
    && (forall s :: 0 <= s < |st.slots| ==> SlotOwned(st, s))
    && (forall j, k :: 0 <= j < k < |st.lookup| && Live(st, j) && Live(st, k)
                       ==> st.lookup[j].slot != st.lookup[k].slot)
  }

  predicate IsTableFrame(pd: seq<u32>, f: int) {
    exists i :: 0 <= i < |pd| && IsTable(pd[i]) && Pfn(pd[i]) == f
  }

  /** Page v is one the swapper may move: nonzero, and if it is mapped, by a 4 KB entry to a frame of its own. */
  ghost predicate Movable(st: Store, v: int) {
    0 < v < ALL_FRAMES && !IsPse(v / 1024)
    && (v in st.pages ==> st.pages[v] % 4096 == 0 && 1 <= Pfn(st.pages[v]) < |st.used| && st.used[Pfn(st.pages[v])]
                          && !IsTableFrame(st.pd, Pfn(st.pages[v])) && |st.pd| == 1024 && IsTable(st.pd[v / 1024]))
  }

  /** The pages in vs are movable and share no frame. */
  ghost predicate Owned(st: Store, vs: set<int>) {
    (forall v :: v in vs ==> Movable(st, v))
    && forall v, w :: v in vs && w in vs && v != w && v in st.pages && w in st.pages ==> st.pages[v] != st.pages[w]
  }

  /** The bytes of a page, wherever they are. */
  function Content(st: Store, v: int): Option<Page>
    requires Shape(st) && 0 < v < ALL_FRAMES
  {
    if v in st.pages then Some(st.ram[Pfn(st.pages[v])])
    else var s := SlotOf(st.lookup, FrameAddr(v));
         if 0 <= s < |st.slots| then Some(ReadSlot(st, s)) else None
  }

  // ------------------------------------------------------------------------ steps

  /** A successful swap_out of page v into slot s. */
  function OutResult(st: Store, v: int, s: nat): Store
    requires Shape(st) && 0 < v < ALL_FRAMES && v in st.pages && s < |st.slots| && IsTable(st.pd[v / 1024])
  {
    var f := Pfn(st.pages[v]);
    st.(disk := WriteSlot(st, s, st.ram[f]),
        slots := st.slots[s := true],
        pages := st.pages - {v},
        ram := StoreWord(st.ram, Pfn(st.pd[v / 1024]), v % 1024, 0),
        used := if 1 <= f < |st.used| then st.used[f := false] else st.used,
        lookup := Recorded(st.lookup, FrameAddr(v), s))
  }

  /** Page v lies in a 4 MB window, and leads to a frame that is no page table. */
  ghost predicate WindowPage(st: Store, v: int) {
    0 <= v < ALL_FRAMES && IsPse(v / 1024) && !IsTableFrame(st.pd, WindowFrame(v))
  }

  function WindowFrame(v: int): int
    requires 0 <= v < ALL_FRAMES
  {
    Pfn(PseTarget(FrameAddr(v)))
  }

  /** A successful swap_out of a window page: the frame is freed, but the page stays mapped. */
  function WindowOutResult(st: Store, v: int, s: nat): Store
    requires Shape(st) && 0 <= v < ALL_FRAMES && s < |st.slots|
  {
    var f := WindowFrame(v);
    st.(disk := WriteSlot(st, s, st.ram[f]),
        slots := st.slots[s := true],
        used := if 1 <= f < |st.used| then st.used[f := false] else st.used,
        lookup := Recorded(st.lookup, FrameAddr(v), s))
  }

  /** What swap_out does after the transfer: page, frame and lookup entry. */
  function Evicted(st: Store, v: int, f: int, s: int): Store
    requires Shape(st) && 0 <= v < ALL_FRAMES && 0 <= f < ALL_FRAMES
  {
    st.(pages := st.pages - {v},
        ram := if IsTable(st.pd[v / 1024]) then StoreWord(st.ram, Pfn(st.pd[v / 1024]), v % 1024, 0) else st.ram,
        used := if 1 <= f < |st.used| then st.used[f := false] else st.used,
        lookup := Recorded(st.lookup, FrameAddr(v), s))
  }

  lemma WindowHasNoTable(pd: seq<u32>, used: seq<bool>, ram: seq<Page>, pages: map<int, u32>, v: int)
    requires Tables(pd, used) && |ram| == ALL_FRAMES && Holds(pd, ram, pages) && 0 <= v < ALL_FRAMES && IsPse(v / 1024)
    ensures v !in pages && !IsTable(pd[v / 1024])
  {
    assert Paging.SlotOk(pd, used, v / 1024);
  }

  /** swap_out in its two parts: the written slot, then the rest. */
  lemma OutParts(st: Store, st1: Store, v: int, s: nat, phys: u32)
    requires Shape(st) && s < |st.slots| && (Movable(st, v) || WindowPage(st, v))
    requires phys != 0
    requires phys == if IsPse(v / 1024) then PseTarget(FrameAddr(v)) else if v in st.pages then st.pages[v] else 0
    requires IsPse(v / 1024) ==> v !in st.pages && !IsTable(st.pd[v / 1024])
    requires st1 == st.(slots := st.slots[s := true], disk := WriteSlot(st, s, st.ram[Pfn(phys)]))
    ensures Evicted(st1, v, Pfn(phys), s) == if IsPse(v / 1024) then WindowOutResult(st, v, s) else OutResult(st, v, s)
  {
    assert v !in st.pages ==> st.pages - {v} == st.pages;
  }

  /** A successful swap_in of page v from slot s into frame f. */
  function InResult(st: Store, v: int, s: nat, f: nat): Store
    requires Shape(st) && 0 < v < ALL_FRAMES && s < |st.slots| && f < |st.used| && IsTable(st.pd[v / 1024])
  {
    st.(used := st.used[f := true],
        ram := StoreWord(st.ram[f := ReadSlot(st, s)], Pfn(st.pd[v / 1024]), v % 1024, FrameAddr(f) + 7),
        pages := st.pages[v := FrameAddr(f)],
        slots := st.slots[s := false],
        lookup := Recorded(st.lookup, FrameAddr(v), -1))
  }

  /** swap_in in its two parts: the filled frame, then mapping, slot and entry. */
  lemma InParts(st: Store, v: int, s: nat, f: nat, phys: int)
    requires Shape(st) && 0 < v < ALL_FRAMES && s < |st.slots| && f < |st.used| && IsTable(st.pd[v / 1024])
    requires phys == FrameAddr(f) && phys + 7 < 0x1_0000_0000
    ensures var st1 := st.(used := st.used[f := true], ram := st.ram[f := ReadSlot(st, s)]);
            InResult(st, v, s, f) == st1.(pages := st1.pages[v := phys], slots := st1.slots[s := false],
                                          ram := StoreWord(st1.ram, Pfn(st1.pd[v / 1024]), v % 1024, phys + 7),
                                          lookup := Recorded(st1.lookup, FrameAddr(v), -1))
  {
  }

  /** The header sector: the letters SWAP, then the low byte of the size, then zeroes. */
  function Header(sizeSectors: u32): (h: seq<u32>)
    ensures |h| == 128 && forall i :: 2 <= i < 128 ==> h[i] == 0
    ensures h[0] % 0x100 == 'S' as int && (h[0] / 0x100) % 0x100 == 'W' as int
            && (h[0] / 0x1_0000) % 0x100 == 'A' as int && h[0] / 0x100_0000 == 'P' as int
    ensures h[1] == sizeSectors % 0x100
  {
    [0x5041_5753, sizeSectors % 0x100] + seq(126, i => 0)
  }

  lemma {:induction false} NoneTaken(slots: seq<bool>)
    requires forall s :: 0 <= s < |slots| ==> !slots[s]
    ensures CountFree(slots) == |slots|
  {
    if slots != [] { NoneTaken(slots[..|slots| - 1]); }
  }

  /** An empty swap area satisfies the bookkeeping invariant. */
  lemma EmptyInv(st: Store)
    requires Shape(st)
    requires forall k :: 0 <= k < |st.lookup| ==> st.lookup[k] == Entry(0, 0)
    requires forall s :: 0 <= s < |st.slots| ==> !st.slots[s]
    ensures Inv(st)
  {
    forall s | 0 <= s < |st.slots|
      ensures SlotOwned(st, s)
    {
    }
  }

  lemma SlotBit(st: Store, k: nat)
    requires Inv(st) && k < |st.lookup| && Live(st, k)
    ensures st.lookup[k].slot < |st.slots| && st.slots[st.lookup[k].slot]
  {
    assert EntryOk(st, k);
  }

  /** Without room in the table the slot stays reserved and nobody owns it. */
  lemma OutWithoutRoom(st: Store, v: int, s: nat)
    requires Inv(st) && Movable(st, v) && v in st.pages
    requires s < |st.slots| && !st.slots[s] && !Room(st.lookup, FrameAddr(v))
    ensures !Inv(OutResult(st, v, s))
  {
    var st' := OutResult(st, v, s);
    RecordedSpec(st.lookup, FrameAddr(v), s, FrameAddr(v));
    forall k | 0 <= k < |st.lookup| && Live(st', k)
      ensures st'.lookup[k].slot != s
    {
      assert Live(st, k);
      SlotBit(st, k);
    }
    assert !SlotOwned(st', s);
  }

  lemma OutEntries(st: Store, v: int, s: nat, at: nat)
    requires Inv(st) && Movable(st, v) && v in st.pages && s < |st.slots| && !st.slots[s]
    requires at < |st.lookup| && at == Min(FindVirt(st.lookup, FrameAddr(v), 0), FindVirt(st.lookup, 0, 0))
    ensures var st' := OutResult(st, v, s);
            st'.lookup == st.lookup[at := Entry(FrameAddr(v), s)] && !Live(st, at) && Live(st', at)
            && forall k :: 0 <= k < |st.lookup| ==> EntryOk(st', k)
  {
    var st' := OutResult(st, v, s);
    assert st'.lookup == st.lookup[at := Entry(FrameAddr(v), s)];
    assert EntryOk(st, at);
    assert !Live(st, at);
    forall k | 0 <= k < |st.lookup|
      ensures EntryOk(st', k)
    {
      assert EntryOk(st, k);
    }
  }

  lemma OutSlots(st: Store, v: int, s: nat, at: nat)
    requires Inv(st) && Movable(st, v) && v in st.pages && s < |st.slots| && !st.slots[s] && at < |st.lookup|
    requires !Live(st, at) && OutResult(st, v, s).lookup == st.lookup[at := Entry(FrameAddr(v), s)]
    ensures var st' := OutResult(st, v, s); forall x :: 0 <= x < |st.slots| ==> SlotOwned(st', x)
  {
    var st' := OutResult(st, v, s);
    forall x | 0 <= x < |st.slots|
      ensures SlotOwned(st', x)
    {
      assert SlotOwned(st, x);
      if x == s {
        assert Live(st', at) && st'.lookup[at].slot == s;
      } else if st.slots[x] {
        var k :| 0 <= k < |st.lookup| && Live(st, k) && st.lookup[k].slot == x;
        assert Live(st', k) && st'.lookup[k].slot == x;
      }
    }
  }

  lemma OutWithRoom(st: Store, v: int, s: nat)
    requires Inv(st) && Movable(st, v) && v in st.pages
    requires s < |st.slots| && !st.slots[s] && Room(st.lookup, FrameAddr(v))
    ensures Inv(OutResult(st, v, s))
  {
    var at := Min(FindVirt(st.lookup, FrameAddr(v), 0), FindVirt(st.lookup, 0, 0));
    RecordedSpec(st.lookup, FrameAddr(v), s, FrameAddr(v));
    OutEntries(st, v, s, at);
    OutSlots(st, v, s, at);
    forall k | 0 <= k < |st.lookup| && Live(st, k)
      ensures st.lookup[k].slot != s
    {
      SlotBit(st, k);
    }
  }

  /** swap_out keeps the bookkeeping invariant exactly if the table has room for the page. */
  lemma OutKeepsInv(st: Store, v: int, s: nat)
    requires Inv(st) && Movable(st, v) && v in st.pages && s < |st.slots| && !st.slots[s]
    ensures Inv(OutResult(st, v, s)) <==> Room(st.lookup, FrameAddr(v))
  {
    if Room(st.lookup, FrameAddr(v)) { OutWithRoom(st, v, s); } else { OutWithoutRoom(st, v, s); }
  }

  /**
   swap_out moves the page's bytes to the disk and changes the bytes of no other page; the
   pages that stay mapped still have frames of their own. With a full table that has never
   seen the page, a "successful" swap_out loses its bytes.
   */
  lemma OutKeepsContent(st: Store, v: int, s: nat, vs: set<int>)
    requires Inv(st) && Owned(st, vs) && v in vs && v in st.pages && s < |st.slots| && !st.slots[s]
    ensures var st' := OutResult(st, v, s);
            Owned(st', vs) && (forall w :: w in vs && w != v ==> Content(st', w) == Content(st, w))
            && (Content(st', v) == Content(st, v) <==> Room(st.lookup, FrameAddr(v)))
  {
    var st' := OutResult(st, v, s);
    assert Movable(st, v);
    OutPreservesIff(st, v, s);
    forall w | w in vs
      ensures Movable(st', w) && (w != v ==> Content(st', w) == Content(st, w))
    {
      assert Movable(st, w);
      RecordedSpec(st.lookup, FrameAddr(v), s, FrameAddr(w));
      if w in st.pages && w != v {
        FramesDiffer(st, v, w);
      } else if w != v {
        var x := SlotOf(st.lookup, FrameAddr(w));
        if 0 <= x < |st.slots| {
          assert EntryOk(st, FindVirt(st.lookup, FrameAddr(w), 0));
          WriteThenRead(st, s, st.ram[Pfn(st.pages[v])], x);
        }
      }
    }
  }

  lemma FramesDiffer(st: Store, v: int, w: int)
    requires v in st.pages && w in st.pages && st.pages[v] % 4096 == 0 && st.pages[w] % 4096 == 0
    requires st.pages[v] != st.pages[w]
    ensures Pfn(st.pages[v]) != Pfn(st.pages[w])
  {
  }

  /**
   The bytes of a page swapped out survive exactly if the table has seen the page before, or
   has seen fewer than 1024 pages; otherwise they are lost.
   */
  lemma OutPreservesIff(st: Store, v: int, s: nat)
    requires Inv(st) && Movable(st, v) && v in st.pages && s < |st.slots| && !st.slots[s]
    ensures Content(OutResult(st, v, s), v) == Content(st, v) <==> Room(st.lookup, FrameAddr(v))
    ensures !Room(st.lookup, FrameAddr(v)) ==> Content(OutResult(st, v, s), v) == None
    ensures Room(st.lookup, FrameAddr(v)) <==> FrameAddr(v) in Entered(st.lookup) || |Entered(st.lookup)| < LOOKUP_SIZE
  {
    RecordedSpec(st.lookup, FrameAddr(v), s, FrameAddr(v));
    WriteThenRead(st, s, st.ram[Pfn(st.pages[v])], s);
    RoomIff(st.lookup, FrameAddr(v));
  }

  /** swap_in keeps the bookkeeping invariant: the slot and its entry are released together. */
  lemma InKeepsInv(st: Store, v: int, s: nat, f: nat)
    requires Inv(st) && Movable(st, v) && SlotOf(st.lookup, FrameAddr(v)) == s
    requires 1 <= f < |st.used| && !st.used[f]
    ensures s < |st.slots| && v !in st.pages && IsTable(st.pd[v / 1024])
    ensures Inv(InResult(st, v, s, f))
  {
    var virt := FrameAddr(v);
    var at := FindVirt(st.lookup, virt, 0);
    assert EntryOk(st, at) && Pfn(virt) == v;
    var st' := InResult(st, v, s, f);
    RecordedSpec(st.lookup, virt, -1, virt);
    assert st'.lookup == st.lookup[at := Entry(virt, -1)];
    forall k | 0 <= k < |st.lookup|
      ensures EntryOk(st', k) && (k != at ==> st'.lookup[k] == st.lookup[k])
    {
      assert EntryOk(st, k);
      if k != at && Live(st, k) {
        assert st.lookup[k].slot != s && st.lookup[k].virt != virt;
      }
    }
    forall x | 0 <= x < |st.slots|
      ensures SlotOwned(st', x)
    {
      assert SlotOwned(st, x);
      if x != s && st.slots[x] {
        var k :| 0 <= k < |st.lookup| && Live(st, k) && st.lookup[k].slot == x;
        assert Live(st', k) && st'.lookup[k].slot == x;
      }
    }
  }

  /** swap_in brings the page's bytes back and changes the bytes of no other page. */
  lemma InKeepsContent(st: Store, v: int, s: nat, f: nat, vs: set<int>)
    requires Inv(st) && Owned(st, vs) && v in vs && SlotOf(st.lookup, FrameAddr(v)) == s
    requires 1 <= f < |st.used| && !st.used[f]
    requires forall i :: 0 <= i < |st.pd| && IsTable(st.pd[i]) ==> Pfn(st.pd[i]) != f
    requires s < |st.slots| && IsTable(st.pd[v / 1024])
    ensures var st' := InResult(st, v, s, f);
            Owned(st', vs) && forall w :: w in vs ==> Content(st', w) == Content(st, w)
  {
    var st' := InResult(st, v, s, f);
    assert Movable(st, v);
    InKeepsInv(st, v, s, f);
    FrameOfAddress(f);
    forall w | w in vs
      ensures Movable(st', w) && Content(st', w) == Content(st, w)
    {
      assert Movable(st, w);
      RecordedSpec(st.lookup, FrameAddr(v), -1, FrameAddr(w));
    }
  }

  /** A failed transfer scribbles only over a slot or a frame that nobody owns. */
  lemma FailureKeepsContent(st: Store, st': Store, vs: set<int>, s: nat, f: nat, p: Page)
    requires Inv(st) && Owned(st, vs)
    requires (s < |st.slots| && !st.slots[s] && st' == st.(disk := WriteSlot(st, s, p)))
          || (f < |st.used| && !st.used[f] && st' == st.(ram := st.ram[f := p]))
    ensures Inv(st') && Owned(st', vs) && forall w :: w in vs ==> Content(st', w) == Content(st, w)
  {
    forall k | 0 <= k < |st.lookup|
      ensures EntryOk(st', k)
    {
      assert EntryOk(st, k);
    }
    forall x | 0 <= x < |st.slots|
      ensures SlotOwned(st', x)
    {
      assert SlotOwned(st, x);
      assert forall k :: 0 <= k < |st.lookup| ==> Live(st', k) == Live(st, k);
    }
    assert forall k :: 0 <= k < |st.lookup| ==> Live(st', k) == Live(st, k);
    forall w | w in vs
      ensures Movable(st', w) && Content(st', w) == Content(st, w)
    {
      assert Movable(st, w);
      if w !in st.pages {
        var x := SlotOf(st.lookup, FrameAddr(w));
        if 0 <= x < |st.slots| {
          assert EntryOk(st, FindVirt(st.lookup, FrameAddr(w), 0));
          if st' != st.(ram := st'.ram) { WriteThenRead(st, s, p, x); }
        }
      }
    }
  }

  // ------------------------------------------------------------------------- runs

  /** The tables use used frames only, so a free frame is never a table. */
  ghost predicate TablesUsed(st: Store) {
    forall i :: 0 <= i < |st.pd| && IsTable(st.pd[i]) ==> 1 <= Pfn(st.pd[i]) < |st.used| && st.used[Pfn(st.pd[i])]
  }

  /** How one call of swap_out(v) or swap_in(v, lookup_get(v)) can end. */
  datatype Outcome =
    | Refused
    | Out(v: int, slot: nat)
    | OutOfWindow(v: int, slot: nat)
    | In(v: int, frame: nat)
    | WriteFailed(slot: nat, scribble: Page)
    | ReadFailed(frame: nat, scribble: Page)

  /** What each outcome does to the state. */
  ghost predicate Effect(st: Store, st': Store, o: Outcome) {
    Shape(st) &&
    match o
    case Refused => st' == st
    case Out(v, s) =>
      Movable(st, v) && v in st.pages && s < |st.slots| && !st.slots[s] && st' == OutResult(st, v, s)
    case OutOfWindow(v, s) =>
      WindowPage(st, v) && s < |st.slots| && !st.slots[s] && st' == WindowOutResult(st, v, s)
    case In(v, f) =>
      Movable(st, v) && 0 <= SlotOf(st.lookup, FrameAddr(v)) < |st.slots| && IsTable(st.pd[v / 1024])
      && 1 <= f < |st.used| && !st.used[f] && st' == InResult(st, v, SlotOf(st.lookup, FrameAddr(v)), f)
    case WriteFailed(s, p) => s < |st.slots| && !st.slots[s] && st' == st.(disk := WriteSlot(st, s, p))
    case ReadFailed(f, p) => f < |st.used| && !st.used[f] && st' == st.(ram := st.ram[f := p])
  }

  /** A call for one of the pages in vs, none of which lies in a window. */
  ghost predicate Step(st: Store, st': Store, vs: set<int>, o: Outcome) {
    Effect(st, st', o) && (o.Out? || o.In? || o.OutOfWindow? ==> o.v in vs && !IsPse(o.v / 1024))
  }

  lemma StepKeepsContent(st: Store, st': Store, vs: set<int>, o: Outcome)
    requires Inv(st) && Owned(st, vs) && TablesUsed(st) && Step(st, st', vs, o)
    requires o.Out? ==> Room(st.lookup, FrameAddr(o.v))
    ensures Inv(st') && Owned(st', vs) && TablesUsed(st')
    ensures forall w :: w in vs ==> Content(st', w) == Content(st, w)
  {
    match o {
      case Refused =>
      case Out(v, s) =>
        OutKeepsInv(st, v, s);
        OutKeepsContent(st, v, s, vs);
        assert !IsTableFrame(st.pd, Pfn(st.pages[v]));
      case In(v, f) =>
        InKeepsInv(st, v, SlotOf(st.lookup, FrameAddr(v)), f);
        InKeepsContent(st, v, SlotOf(st.lookup, FrameAddr(v)), f, vs);
      case OutOfWindow(_, _) =>
      case WriteFailed(s, p) =>
        FailureKeepsContent(st, st', vs, s, 0, p);
      case ReadFailed(f, p) =>
        FailureKeepsContent(st, st', vs, 0, f, p);
    }
  }

  function Addresses(vs: set<int>): set<int> {
    set v | v in vs :: FrameAddr(v)
  }

  /** Only pages that are swapped get an entry. */
  lemma StepEnters(st: Store, st': Store, vs: set<int>, o: Outcome)
    requires Inv(st) && Step(st, st', vs, o)
    ensures Entered(st'.lookup) <= Entered(st.lookup) + Addresses(vs)
  {
    match o {
      case Out(v, s) => EnteredRecorded(st.lookup, FrameAddr(v), s);
      case In(v, f) => EnteredRecorded(st.lookup, FrameAddr(v), -1);
      case _ =>
    }
  }

  /** At most 1024 pages in all, those with an entry and those that are swapped: the table has room. */
  lemma FewPagesFindRoom(st: Store, v: int, all: set<int>)
    requires Inv(st) && 0 < v < ALL_FRAMES && Entered(st.lookup) <= all && FrameAddr(v) in all && |all| <= LOOKUP_SIZE
    ensures Room(st.lookup, FrameAddr(v))
  {
    RoomIff(st.lookup, FrameAddr(v));
    if FrameAddr(v) !in Entered(st.lookup) {
      SubsetSize(Entered(st.lookup), all - {FrameAddr(v)});
    }
  }

  lemma SubsetSize(a: set<int>, b: set<int>)
    requires a <= b
    ensures |a| <= |b|
  {
    assert b == a + (b - a);
  }

  /** A run: each state follows from the one before it by the recorded outcome. */
  ghost predicate Run(sts: seq<Store>, os: seq<Outcome>, vs: set<int>) {
    |sts| == |os| + 1 && forall i :: 0 <= i < |os| ==> Step(sts[i], sts[i + 1], vs, os[i])
  }

  /**
   Swap is transparent: along every run of swap_out and swap_in calls, whatever fails and
   wherever the pages are, each page keeps exactly its bytes, as long as at most 1024 pages
   are ever swapped, those counted that have an entry to begin with.
   */
  lemma {:induction false} SwapIsTransparent(sts: seq<Store>, os: seq<Outcome>, vs: set<int>)
    requires Run(sts, os, vs) && Inv(sts[0]) && Owned(sts[0], vs) && TablesUsed(sts[0])
    requires |Entered(sts[0].lookup) + Addresses(vs)| <= LOOKUP_SIZE
    ensures var last := sts[|os|];
            Inv(last) && Owned(last, vs) && TablesUsed(last)
            && Entered(last.lookup) <= Entered(sts[0].lookup) + Addresses(vs)
            && forall w :: w in vs ==> Content(last, w) == Content(sts[0], w)
  {
    if os != [] {
      var n := |os| - 1;
      SwapIsTransparent(sts[..n + 1], os[..n], vs);
      StepEnters(sts[n], sts[n + 1], vs, os[n]);
      if os[n].Out? { FewPagesFindRoom(sts[n], os[n].v, Entered(sts[0].lookup) + Addresses(vs)); }
      StepKeepsContent(sts[n], sts[n + 1], vs, os[n]);
    }
  }

  /** With one page more the promise ends: the first swap_out of page 1025 loses its bytes. */
  lemma OnePageTooMany(st: Store, st': Store, vs: set<int>, v: int, s: nat)
    requires Inv(st) && v in st.pages && Step(st, st', vs, Out(v, s))
    requires FrameAddr(v) !in Entered(st.lookup) && |Entered(st.lookup) + {FrameAddr(v)}| > LOOKUP_SIZE
    ensures Content(st', v) == None != Content(st, v) && !Inv(st')
  {
    OutPreservesIff(st, v, s);
    OutKeepsInv(st, v, s);
  }

  /** The slots behind the header lie inside the partition. */
  lemma AreaFits(lba: u32, sizeSectors: u32, count: nat, words: nat)
    requires sizeSectors >= 8 && count == Min((sizeSectors - 1) / 8, SLOTS_MAX)
    requires 128 * (lba + sizeSectors) <= words && lba + sizeSectors <= 0x1_0000_0000
    ensures SlotPos(lba + 1, count) <= words && lba + 1 + 8 * count <= 0x1_0000_0000 && count <= SLOTS_MAX
  {
    assert 8 * count <= sizeSectors - 1;
  }

  // ---------------------------------------------------------------- the partition

  /** Word w of the disk belongs to no slot. */
  predicate OutsideSlots(st: Store, w: nat) {
    w < SlotPos(st.start, 0) || SlotPos(st.start, |st.slots|) <= w
  }

  /** No outcome moves the slots, and none changes the disk outside them. */
  lemma EffectKeepsDisk(st: Store, st': Store, o: Outcome)
    requires Effect(st, st', o)
    ensures st'.start == st.start && |st'.slots| == |st.slots| && |st'.disk| == |st.disk|
    ensures forall w :: 0 <= w < |st.disk| && OutsideSlots(st, w) ==> st'.disk[w] == st.disk[w]
  {
  }

  /** Calls of swap_out and swap_in, for any pages. */
  ghost predicate Calls(sts: seq<Store>, os: seq<Outcome>) {
    |sts| == |os| + 1 && forall i :: 0 <= i < |os| ==> Effect(sts[i], sts[i + 1], os[i])
  }

  /**
   Along every run, failed transfers included, nothing on the disk changes outside the
   partition, and nothing in its header sector either.
   */
  lemma {:induction false} SwapStaysInPartition(sts: seq<Store>, os: seq<Outcome>, lba: u32, sizeSectors: u32)
    requires Calls(sts, os) && sizeSectors >= 8
    requires sts[0].start == lba + 1 && |sts[0].slots| == Min((sizeSectors - 1) / 8, SLOTS_MAX)
    ensures var first, last := sts[0], sts[|os|];
            last.start == first.start && |last.slots| == |first.slots| && |last.disk| == |first.disk|
            && forall w :: 0 <= w < |first.disk| && !(128 * (lba + 1) <= w < 128 * (lba + sizeSectors))
                           ==> last.disk[w] == first.disk[w]
  {
    if os != [] {
      var n := |os| - 1;
      SwapStaysInPartition(sts[..n + 1], os[..n], lba, sizeSectors);
      EffectKeepsDisk(sts[n], sts[n + 1], os[n]);
      AreaEnds(lba, sizeSectors, |sts[n].slots|);
    }
  }

  /** The slots behind the header end before the partition does. */
  lemma AreaEnds(lba: u32, sizeSectors: u32, count: nat)
    requires sizeSectors >= 8 && count == Min((sizeSectors - 1) / 8, SLOTS_MAX)
    ensures SlotPos(lba + 1, 0) == 128 * (lba + 1) && SlotPos(lba + 1, count) <= 128 * (lba + sizeSectors)
  {
    assert 8 * count <= sizeSectors - 1;
  }

  // ------------------------------------------------------------ conservation of frames and slots

  /** The pages of vs that are in memory. */
  ghost function Resident(st: Store, vs: set<int>): set<int> {
    set v | v in vs && v in st.pages
  }

  lemma StepConserves(st: Store, st': Store, vs: set<int>, o: Outcome)
    requires Inv(st) && Owned(st, vs) && Step(st, st', vs, o)
    ensures CountFree(st'.used) + |Resident(st', vs)| == CountFree(st.used) + |Resident(st, vs)|
    ensures CountFree(st'.slots) - |Resident(st', vs)| == CountFree(st.slots) - |Resident(st, vs)|
  {
    match o
    case Out(v, s) =>
      assert Resident(st', vs) == Resident(st, vs) - {v};
      CountFreeUpdate(st.used, Pfn(st.pages[v]), false);
      CountFreeUpdate(st.slots, s, true);
    case In(v, f) =>
      var s := SlotOf(st.lookup, FrameAddr(v));
      InKeepsInv(st, v, s, f);
      SlotBit(st, FindVirt(st.lookup, FrameAddr(v), 0));
      assert Resident(st', vs) == Resident(st, vs) + {v};
      CountFreeUpdate(st.used, f, true);
      CountFreeUpdate(st.slots, s, false);
    case OutOfWindow(_, _) =>
    case Refused | WriteFailed(_, _) | ReadFailed(_, _) =>
      assert Resident(st', vs) == Resident(st, vs);
  }

  /**
   Along every run frames and slots are conserved: each page that leaves memory frees one
   frame and takes one slot, and each page that comes back takes one frame and frees one slot.
   */
  lemma {:induction false} SwapConserves(sts: seq<Store>, os: seq<Outcome>, vs: set<int>)
    requires Run(sts, os, vs) && Inv(sts[0]) && Owned(sts[0], vs) && TablesUsed(sts[0])
    requires |Entered(sts[0].lookup) + Addresses(vs)| <= LOOKUP_SIZE
    ensures var first, last := sts[0], sts[|os|];
            CountFree(last.used) + |Resident(last, vs)| == CountFree(first.used) + |Resident(first, vs)|
            && CountFree(last.slots) - |Resident(last, vs)| == CountFree(first.slots) - |Resident(first, vs)|
  {
    if os != [] {
      var n := |os| - 1;
      SwapConserves(sts[..n + 1], os[..n], vs);
      SwapIsTransparent(sts[..n + 1], os[..n], vs);
      StepConserves(sts[n], sts[n + 1], vs, os[n]);
    }
  }

  // ------------------------------------------------------------------ the slot bitmap

  /** The booleans that n bits of the byte array stand for. */
  ghost function UnpackBytes(bytes: seq<u8>, n: nat): (slots: seq<bool>)
    requires n <= 8 * |bytes|
    ensures |slots| == n
  {
    seq(n, i requires 0 <= i < n => Bit(bytes[i / 8], i % 8))
  }

  lemma UnpackBytesSet(bytes: seq<u8>, n: nat, i: nat)
    requires n <= 8 * |bytes| && i < n
    ensures SetBit(bytes[i / 8], i % 8) < 256
    ensures UnpackBytes(bytes[i / 8 := SetBit(bytes[i / 8], i % 8)], n) == UnpackBytes(bytes, n)[i := true]
  {
    Pow2At32();
    SetBitSpec(bytes[i / 8], i % 8, 8);
  }

  lemma UnpackBytesClear(bytes: seq<u8>, n: nat, i: nat)
    requires n <= 8 * |bytes| && i < n
    ensures ClearBit(bytes[i / 8], i % 8) < 256
    ensures UnpackBytes(bytes[i / 8 := ClearBit(bytes[i / 8], i % 8)], n) == UnpackBytes(bytes, n)[i := false]
  {
    ClearBitSpec(bytes[i / 8], i % 8);
  }

  // ----------------------------------------------------------------------- the module

  class Swapper {
    const vm: AddressSpace
    const bitmap: array<u8>
    const lookup: array<Entry>
    var disk: seq<u32>
    var ready: bool
    var start: nat
    var slotCount: nat
    ghost var slots: seq<bool>

    constructor (a: AddressSpace, bytes: array<u8>, entries: array<Entry>, words: seq<u32>)
      requires a.Valid() && bytes.Length == SLOTS_MAX / 8 && entries.Length == LOOKUP_SIZE
      ensures Valid() && !ready && vm == a && bitmap == bytes && lookup == entries && disk == words
    {
      vm, bitmap, lookup, disk := a, bytes, entries, words;
      ready, start, slotCount, slots := false, 0, 0, [];
    }

    ghost predicate Valid()
      reads this, bitmap, lookup, vm, vm.pd, vm.pmm, vm.pmm.bitmap
    {
      vm.Valid() && bitmap.Length == SLOTS_MAX / 8 && lookup.Length == LOOKUP_SIZE
      && (ready ==> Shape(State()) && |slots| == slotCount && start + 8 * slotCount <= 0x1_0000_0000
                    && slots == UnpackBytes(bitmap[..], slotCount))
    }

    ghost function State(): Store
      reads this, lookup, vm, vm.pd, vm.pmm
    {
      Store(vm.pages, vm.pmm.ram, vm.pmm.used, vm.pd[..], disk, slots, lookup[..], start)
    }

    /** slot_allozieren: reserves the lowest free slot, -1 when all are taken. */
    method AllocSlot() returns (slot: int)
      requires Valid() && ready
      modifies this`slots, bitmap
      ensures Valid()
      ensures State() == old(State()).(slots := slots)
      ensures slot == -1 ==> slots == old(slots) && forall i :: 0 <= i < slotCount ==> slots[i]
      ensures slot != -1 ==> 0 <= slot < slotCount && !old(slots)[slot] && slots == old(slots)[slot := true]
                             && forall i :: 0 <= i < slot ==> old(slots)[i]
    {
      var i := FirstFreeSlot();
      if i == slotCount { return -1; }
      UnpackBytesSet(bitmap[..], slotCount, i);
      ghost var bytes := bitmap[..];
      bitmap[i / 8] := SetBit(bitmap[i / 8], i % 8);
      assert bitmap[..] == bytes[i / 8 := SetBit(bytes[i / 8], i % 8)];
      slots := slots[i := true];
      return i;
    }

    /** The search loop of slot_allozieren. */
    method FirstFreeSlot() returns (i: nat)
      requires Valid() && ready
      ensures i <= slotCount && (i < slotCount ==> !slots[i]) && forall j :: 0 <= j < i ==> slots[j]
    {
      i := 0;
      while i < slotCount
        invariant i <= slotCount && forall j :: 0 <= j < i ==> slots[j]
      {
        if !Bit(bitmap[i / 8], i % 8) { return; }
        i := i + 1;
      }
    }

    /** slot_freigeben */
    method FreeSlot(slot: nat)
      requires Valid() && ready
      modifies this`slots, bitmap
      ensures Valid() && State() == old(State()).(slots := slots)
      ensures slots == if slot < slotCount then old(slots)[slot := false] else old(slots)
    {
      if slot < slotCount {
        UnpackBytesClear(bitmap[..], slotCount, slot);
        ghost var bytes := bitmap[..];
        bitmap[slot / 8] := ClearBit(bitmap[slot / 8], slot % 8);
        assert bitmap[..] == bytes[slot / 8 := ClearBit(bytes[slot / 8], slot % 8)];
        slots := slots[slot := false];
      }
    }

    /** lookup_set: the first entry that is unused or already holds virt; nothing when there is none. */
    method LookupSet(virt: u32, slot: int)
      requires Valid()
      modifies lookup
      ensures Valid() && State() == old(State()).(lookup := Recorded(old(lookup[..]), virt, slot))
    {
      ghost var t := lookup[..];
      var i := 0;
      while i < lookup.Length
        invariant 0 <= i <= lookup.Length && lookup[..] == t
        invariant forall j :: 0 <= j < i ==> t[j].virt != 0 && t[j].virt != virt
      {
        if lookup[i].virt == 0 || lookup[i].virt == virt {
          lookup[i] := Entry(virt, slot);
          assert lookup[..] == t[i := Entry(virt, slot)];
          return;
        }
        i := i + 1;
      }
    }

    /** lookup_get */
    method LookupGet(virt: u32) returns (slot: int)
      requires Valid()
      ensures slot == SlotOf(lookup[..], virt)
    {
      var i := 0;
      while i < lookup.Length
        invariant 0 <= i <= lookup.Length
        invariant forall j :: 0 <= j < i ==> lookup[j].virt != virt
      {
        if lookup[i].virt == virt { return lookup[i].slot; }
        i := i + 1;
      }
      return -1;
    }

    /** ide_write of eight sectors; a failed transfer leaves scribble in the slot. */
    method WriteToDisk(slot: nat, page: Page, ok: bool, scribble: Page)
      requires Valid() && ready && slot < slotCount
      modifies this`disk
      ensures Valid() && State() == old(State()).(disk := WriteSlot(old(State()), slot, if ok then page else scribble))
    {
      SlotOnDisk(start, slot, slotCount);
      var at: nat := 128 * Wrap(start + slot * 8);
      disk := disk[..at] + (if ok then page else scribble) + disk[at + 1024..];
    }

    /** ide_read of eight sectors into frame f; a failed transfer leaves scribble in the frame. */
    method ReadFromDisk(slot: nat, f: nat, ok: bool, scribble: Page)
      requires Valid() && ready && slot < slotCount && f < ALL_FRAMES
      requires forall i :: 0 <= i < 1024 && IsTable(vm.pd[i]) ==> Pfn(vm.pd[i]) != f
      modifies vm.pmm`ram
      ensures Valid()
      ensures var page := if ok then ReadSlot(old(State()), slot) else scribble;
              State() == old(State()).(ram := old(vm.pmm.ram)[f := page])
    {
      SlotOnDisk(start, slot, slotCount);
      var at: nat := 128 * Wrap(start + slot * 8);
      vm.WriteFrame(f, if ok then disk[at..at + 1024] else scribble);
    }

    /** The first half of swap_out: reserve a slot and write the frame; the slot is returned on failure. */
    method SaveFrame(f: nat, ok: bool, scribble: Page) returns (slot: nat, full: bool)
      requires Valid() && ready && f < ALL_FRAMES
      modifies this, bitmap
      ensures Valid() && ready
      ensures full <==> forall s :: 0 <= s < |old(slots)| ==> old(slots)[s]
      ensures full ==> State() == old(State())
      ensures !full ==> slot < |old(slots)| && !old(slots)[slot]
                        && State() == old(State()).(slots := if ok then old(slots)[slot := true] else old(slots),
                                                    disk := WriteSlot(old(State()), slot,
                                                                      if ok then vm.pmm.ram[f] else scribble))
    {
      ghost var st := State();
      var s := AllocSlot();
      if s < 0 { return 0, true; }
      WriteToDisk(s, vm.pmm.ram[f], ok, scribble);
      ghost var d := WriteSlot(st, s, if ok then vm.pmm.ram[f] else scribble);
      assert State() == st.(slots := st.slots[s := true], disk := d);
      if !ok {
        FreeSlot(s);
        assert st.slots[s := true][s := false] == st.slots;
      }
      return s, false;
    }

    /** The first half of swap_in: take a frame and fill it from the slot; the frame is returned on failure. */
    method LoadFrame(slot: nat, ok: bool, scribble: Page) returns (phys: u32)
      requires Valid() && ready && slot < slotCount
      modifies vm.pmm, vm.pmm.bitmap
      ensures Valid() && phys % 4096 == 0
      ensures phys == 0 <==> !HasFree(old(vm.pmm.used))
      ensures phys == 0 ==> State() == old(State())
      ensures phys != 0 ==>
                var st, f := old(State()), Pfn(phys);
                var page := if ok then ReadSlot(st, slot) else scribble;
                1 <= f < |st.used| && !st.used[f]
                && State() == st.(used := if ok then st.used[f := true] else st.used, ram := st.ram[f := page])
    {
      ghost var st := State();
      phys := vm.TakeFrame();
      if phys == 0 { return; }
      ghost var f, data := Pfn(phys), if ok then ReadSlot(st, slot) else scribble;
      assert State() == st.(used := st.used[f := true], ram := st.ram[f := ZeroPage()]);
      FillFrame(slot, phys, ok, scribble);
      assert st.ram[f := ZeroPage()][f := data] == st.ram[f := data];
      assert !ok ==> st.used[f := true][f := false] == st.used;
    }

    /** The disk read of swap_in, into a frame just taken; on failure the frame is free again. */
    method FillFrame(slot: nat, phys: u32, ok: bool, scribble: Page)
      requires Valid() && ready && slot < slotCount && 1 <= Pfn(phys) < |vm.pmm.used|
      requires forall i :: 0 <= i < 1024 && IsTable(vm.pd[i]) ==> Pfn(vm.pd[i]) != Pfn(phys)
      modifies vm.pmm, vm.pmm.bitmap
      ensures Valid()
      ensures var st, f := old(State()), Pfn(phys);
              var page := if ok then ReadSlot(st, slot) else scribble;
              State() == st.(used := if ok then st.used else st.used[f := false], ram := st.ram[f := page])
    {
      ReadFromDisk(slot, Pfn(phys), ok, scribble);
      if !ok { vm.ReleaseFrame(phys); }
    }

    /** The two calls that take a written page out of memory. */
    method DropPage(page: u32, phys: u32)
      requires Valid() && ready && page % 4096 == 0 && !IsTableFrame(vm.pd[..], Pfn(phys))
      modifies vm, vm.pd, vm.pmm, vm.pmm.bitmap
      ensures Valid()
      ensures var st, v, f := old(State()), Pfn(page), Pfn(phys);
              State() == st.(pages := st.pages - {v},
                             ram := if IsTable(st.pd[v / 1024])
                                    then StoreWord(st.ram, Pfn(st.pd[v / 1024]), v % 1024, 0) else st.ram,
                             used := if 1 <= f < |st.used| then st.used[f := false] else st.used)
    {
      vm.UnmapPage(page);
      assert forall i :: 0 <= i < 1024 && IsTable(vm.pd[i]) ==> Pfn(vm.pd[i]) != Pfn(phys);
      vm.ReleaseFrame(phys);
    }

    /** The rest of swap_out once the page is written. */
    method Evict(page: u32, phys: u32, slot: nat)
      requires Valid() && ready && page % 4096 == 0 && !IsTableFrame(vm.pd[..], Pfn(phys))
      modifies this, bitmap, lookup, vm, vm.pd, vm.pmm, vm.pmm.bitmap
      ensures Valid() && ready == old(ready) && State() == Evicted(old(State()), Pfn(page), Pfn(phys), slot)
    {
      AddressOfFrame(page);
      DropPage(page, phys);
      LookupSet(page, slot);
    }

    /** The same, seen from the state st before the transfer. */
    method EvictWritten(ghost st: Store, virt: u32, phys: u32, slot: nat)
      requires Valid() && ready && Shape(st) && slot < |st.slots|
      requires Movable(st, Pfn(virt)) || WindowPage(st, Pfn(virt))
      requires phys != 0 && phys == if IsPse(Pfn(virt) / 1024) then PseTarget(PageDown(virt))
                                    else if Pfn(virt) in st.pages then st.pages[Pfn(virt)] else 0
      requires State() == st.(slots := st.slots[slot := true], disk := WriteSlot(st, slot, st.ram[Pfn(phys)]))
      modifies this, bitmap, lookup, vm, vm.pd, vm.pmm, vm.pmm.bitmap
      ensures Valid() && ready
      ensures var v := Pfn(virt);
              State() == if IsPse(v / 1024) then WindowOutResult(st, v, slot) else OutResult(st, v, slot)
    {
      PageTarget(vm.pages, virt);
      AddressOfFrame(PageDown(virt));
      ghost var st1 := State();
      if IsPse(Pfn(virt) / 1024) { WindowHasNoTable(vm.pd[..], vm.pmm.used, vm.pmm.ram, vm.pages, Pfn(virt)); }
      OutParts(st, st1, Pfn(virt), slot, phys);
      Evict(PageDown(virt), phys, slot);
    }

    /**
     swap_init: an empty swap area of (size - 1) / 8 slots behind the header sector. A failed
     write of the header, whose result is ignored, leaves scribble there.
     */
    method SwapInit(lba: u32, sizeSectors: u32, ok: bool, scribble: seq<u32>)
      requires Valid() && |scribble| == 128
      requires 128 * (lba + sizeSectors) <= |disk| && lba + sizeSectors <= 0x1_0000_0000
      modifies this, bitmap, lookup
      ensures Valid()
      ensures sizeSectors < 8 ==> State() == old(State()) && ready == old(ready)
      ensures sizeSectors >= 8 ==> ready && Inv(State()) && start == lba + 1
                                   && slotCount == Min((sizeSectors - 1) / 8, SLOTS_MAX)
      ensures sizeSectors >= 8 ==> CountFree(slots) == slotCount && Entered(lookup[..]) == {}
      ensures sizeSectors >= 8 ==> |disk| == |old(disk)|
                                   && disk[128 * lba..128 * (lba + 1)] == if ok then Header(sizeSectors) else scribble
      ensures sizeSectors >= 8 ==> forall w :: 0 <= w < |disk| && !(128 * lba <= w < 128 * (lba + 1))
                                               ==> disk[w] == old(disk)[w]
    {
      if sizeSectors < 8 { return; }
      WriteHeader(lba, if ok then Header(sizeSectors) else scribble);
      start := lba + 1;
      slotCount := (sizeSectors - 1) / 8;
      if slotCount > SLOTS_MAX { slotCount := SLOTS_MAX; }
      slots := ClearTables();
      AreaFits(lba, sizeSectors, slotCount, |disk|);
      ready := true;
      EmptyInv(State());
      NoneTaken(slots);
    }

    /** ide_write of the header sector. */
    method WriteHeader(lba: u32, header: seq<u32>)
      requires |header| == 128 && 128 * (lba + 1) <= |disk|
      modifies this`disk
      ensures |disk| == |old(disk)| && disk[128 * lba..128 * (lba + 1)] == header
      ensures forall w :: 0 <= w < |disk| && !(128 * lba <= w < 128 * (lba + 1)) ==> disk[w] == old(disk)[w]
    {
      disk := disk[..128 * lba] + header + disk[128 * lba + 128..];
    }

    method ClearTables() returns (ghost none: seq<bool>)
      requires bitmap.Length == SLOTS_MAX / 8 && slotCount <= SLOTS_MAX
      modifies bitmap, lookup
      ensures forall k :: 0 <= k < lookup.Length ==> lookup[k] == Entry(0, 0)
      ensures none == UnpackBytes(bitmap[..], slotCount) && forall s :: 0 <= s < slotCount ==> !none[s]
    {
      forall i | 0 <= i < bitmap.Length { bitmap[i] := 0; }
      forall i | 0 <= i < lookup.Length { lookup[i] := Entry(0, 0); }
      none := UnpackBytes(bitmap[..], slotCount);
      forall s | 0 <= s < slotCount
        ensures !none[s]
      {
        ZeroHasNoBits(s % 8);
      }
    }

    /**
     swap_out. The frame of the page must be in use and no page table; scribble is what a
     failed transfer leaves on the disk.
     */
    method SwapOut(virt: u32, ok: bool, scribble: Page) returns (r: int, ghost o: Outcome)
      requires Valid()
      requires ready ==> Movable(State(), Pfn(virt)) || WindowPage(State(), Pfn(virt))
      modifies this, bitmap, lookup, vm, vm.pd, vm.pmm, vm.pmm.bitmap
      ensures Valid() && ready == old(ready)
      ensures !ready ==> o == Refused && State() == old(State())
      ensures ready ==> Effect(old(State()), State(), o)
      ensures o.Refused? <==> !ready || (Pfn(virt) !in old(vm.pages) && !IsPse(Pfn(virt) / 1024))
                              || (IsPse(Pfn(virt) / 1024) && PseTarget(PageDown(virt)) == 0)
                              || forall s :: 0 <= s < |old(slots)| ==> old(slots)[s]
      ensures o.Refused? || o == WriteFailed(if o.WriteFailed? then o.slot else 0, scribble)
              || (o.Out? && o.v == Pfn(virt)) || (o.OutOfWindow? && o.v == Pfn(virt))
      ensures !o.Refused? ==> (o.Out? || o.OutOfWindow? <==> ok)
      ensures r == if o.Out? || o.OutOfWindow? then 0 else -1
    {
      if !ready { return -1, Refused; }
      PageTarget(vm.pages, virt);
      var phys := vm.GetPhys(PageDown(virt));
      if phys == 0 { return -1, Refused; }
      AddressOfFrame(PageDown(virt));
      ghost var st := State();
      var slot, full := SaveFrame(Pfn(phys), ok, scribble);
      if full { return -1, Refused; }
      if !ok { return -1, WriteFailed(slot, scribble); }
      EvictWritten(st, virt, phys, slot);
      r, o := 0, if IsPse(Pfn(virt) / 1024) then OutOfWindow(Pfn(virt), slot) else Out(Pfn(virt), slot);
    }

    /**
     swap_in, called as the page-fault handler is meant to: with the slot that lookup_get
     returned for the page.
     */
    method SwapIn(virt: u32, slot: nat, ok: bool, scribble: Page) returns (r: int, ghost o: Outcome)
      requires Valid()
      requires ready ==> Inv(State()) && Movable(State(), Pfn(virt)) && SlotOf(lookup[..], PageDown(virt)) == slot
      modifies this, bitmap, lookup, vm, vm.pd, vm.pmm, vm.pmm.bitmap
      ensures Valid() && ready == old(ready)
      ensures !ready ==> o == Refused && State() == old(State())
      ensures ready ==> Effect(old(State()), State(), o)
      ensures o.Refused? <==> !ready || !HasFree(old(vm.pmm.used))
      ensures !o.Refused? ==> if ok then o.In? && o.v == Pfn(virt) else o.ReadFailed? && o.scribble == scribble
      ensures r == if o.In? then 0 else -1
    {
      if !ready { return -1, Refused; }
      PageTarget(vm.pages, virt);
      AddressOfFrame(PageDown(virt));
      ghost var st := State();
      assert EntryOk(st, FindVirt(st.lookup, PageDown(virt), 0));
      var phys := LoadFrame(slot, ok, scribble);
      if phys == 0 { return -1, Refused; }
      if !ok { return -1, ReadFailed(Pfn(phys), scribble); }
      AddressOfFrame(phys);
      InParts(st, Pfn(virt), slot, Pfn(phys), phys);
      Attach(PageDown(virt), phys, slot);
      return 0, In(Pfn(virt), Pfn(phys));
    }

    /** The end of swap_in: map the page, release its slot, clear its lookup entry. */
    method Attach(page: u32, phys: u32, slot: nat)
      requires Valid() && ready && page % 4096 == 0 && phys % 4096 == 0 && slot < slotCount
      requires !IsPse(Pfn(page) / 1024) && IsTable(vm.pd[Pfn(page) / 1024])
      modifies this, bitmap, lookup, vm, vm.pd, vm.pmm, vm.pmm.bitmap
      ensures Valid() && ready
      ensures var st, v := old(State()), Pfn(page);
              State() == st.(pages := st.pages[v := phys], slots := st.slots[slot := false],
                             ram := StoreWord(st.ram, Pfn(st.pd[v / 1024]), v % 1024, phys + 7),
                             lookup := Recorded(st.lookup, page, -1))
    {
      MapBack(page, phys);
      FreeSlot(slot);
      LookupSet(page, -1);
    }

    /** The mapping of swap_in: the table exists, so only its entry is stored. */
    method MapBack(page: u32, phys: u32)
      requires Valid() && ready && page % 4096 == 0 && phys % 4096 == 0
      requires !IsPse(Pfn(page) / 1024) && IsTable(vm.pd[Pfn(page) / 1024])
      modifies vm, vm.pd, vm.pmm, vm.pmm.bitmap
      ensures Valid()
      ensures var st, v := old(State()), Pfn(page);
              State() == st.(pages := st.pages[v := phys],
                  ram := StoreWord(st.ram, Pfn(st.pd[v / 1024]), v % 1024, phys + 7))
    {
      AddressOfFrame(phys);
      assert PteFlags(7) == 7;
      var r := vm.MapPage(page, phys, 7);
    }
  }

  /** Inside a 4 MB window unmapping does nothing, so the page stays visible after its frame is freed. */
  lemma WindowPagesStayMapped(pages: map<int, u32>, virt: u32)
    ensures Lookup(pages - {Pfn(virt)}, virt) == None <==> !IsPse(virt / 0x40_0000)
  {
  }

  /**
   swap_out of a window page frees a frame that is still mapped. When the next page w comes
   back into that frame, both addresses lead to it, and the window shows the bytes of w.
   */
  lemma FreedWindowPageIsShared(st: Store, st1: Store, v: int, s0: nat, st2: Store, w: int, f: nat)
    requires Effect(st, st1, OutOfWindow(v, s0)) && f == WindowFrame(v) < |st.used|
    requires Effect(st1, st2, In(w, f)) && Pfn(st.pd[w / 1024]) != f
    ensures !st1.used[f] && Lookup(st1.pages, FrameAddr(v)) == Some(FrameAddr(f))
    ensures Lookup(st2.pages, FrameAddr(v)) == Some(FrameAddr(f)) == Lookup(st2.pages, FrameAddr(w))
    ensures st2.ram[f] == ReadSlot(st1, SlotOf(st1.lookup, FrameAddr(w)))
  {
    FrameOfAddress(v);
    FrameOfAddress(w);
    WindowTargetFrame(v);
  }

  lemma WindowTargetFrame(v: int)
    requires 0 <= v < ALL_FRAMES
    ensures PseTarget(FrameAddr(v)) == FrameAddr(WindowFrame(v)) && FrameAddr(v) / 0x40_0000 == v / 1024
  {
    FrameOfAddress(v);
    var t := PseTarget(FrameAddr(v));
    assert t == 4096 * (if FrameAddr(v) >= 0xC000_0000 then v - 0xC_0000 else v);
  }

  /**
   Unused entries carry address 0, so lookup_get answers slot 0 for a page at address 0 that
   was never swapped out; it answers -1, as it should, only once the table is full.
   */
  lemma PageZeroLooksSwapped(t: seq<Entry>)
    requires forall k :: 0 <= k < |t| && t[k].virt == 0 ==> t[k].slot == 0
    ensures SlotOf(t, 0) == -1 <==> forall k :: 0 <= k < |t| ==> t[k].virt != 0
    ensures SlotOf(t, 0) != -1 ==> SlotOf(t, 0) == 0
  {
    var k := FindVirt(t, 0, 0);
  }
}
