/**
 The slab allocator of kernal/mm/slab.c: object slots carved out of page runs, free slots
 chained through their own first word, and slab descriptors linked into three lists.

 Descriptors are records at pointer values, so that links and list heads are the pointers
 the code really writes. The ghost part of the state names what they stand for.
 */
module Slab {
  import opened Words
  import opened RawMemory
  import opened PhysAlloc

  // ------------------------------------------------------------------------ slots

  /** The slot addresses of a slab with n objects. */
  ghost function SlotSet(base: int, stride: int, n: nat): set<int> {
    if n == 0 then {} else SlotSet(base, stride, n - 1) + {base + (n - 1) * stride}
  }

  lemma {:induction false} SlotBounds(base: int, stride: int, n: nat, a: int)
    requires stride >= 4 && stride % 4 == 0 && a in SlotSet(base, stride, n)
    ensures base <= a && a + stride <= base + n * stride && (a - base) % 4 == 0
  {
    if a in SlotSet(base, stride, n - 1) {
      SlotBounds(base, stride, n - 1, a);
      assert (n - 1) * stride + stride == n * stride;
    } else {
      MultipleOf4(n - 1, stride);
    }
  }

  lemma MultipleOf4(k: nat, stride: nat)
    requires stride % 4 == 0
    ensures (k * stride) % 4 == 0 && k * stride >= 0
  {
    var q := stride / 4;
    assert k * stride == 4 * (k * q);
  }

  /** Every slot has the alignment of its slab, if the stride has it. */
  lemma {:induction false} SlotAligned(base: nat, stride: nat, n: nat, align: nat, a: int)
    requires align > 0 && base % align == 0 && stride % align == 0 && a in SlotSet(base, stride, n)
    ensures a >= 0 && a % align == 0
  {
    if a in SlotSet(base, stride, n - 1) {
      SlotAligned(base, stride, n - 1, align, a);
    } else {
      MultiplesAdd(base / align, (n - 1) * (stride / align), align);
      assert a == (base / align) * align + (n - 1) * (stride / align) * align;
    }
  }

  lemma MultiplesAdd(x: nat, y: nat, d: nat)
    requires d > 0
    ensures (x * d + y * d) % d == 0
  {
    assert x * d + y * d == (x + y) * d;
    MultipleOf(x + y, d);
  }

  lemma MultipleOf(k: nat, d: nat)
    requires d > 0
    ensures (k * d) % d == 0 && k * d >= 0
  {
    var q, r := (k * d) / d, (k * d) % d;
    assert k * d == q * d + r;
    if q < k { Larger(q, k, d); }
    if k < q { Larger(k, q, d); }
  }

  lemma {:induction false} Larger(a: int, b: int, d: nat)
    requires a < b
    ensures b * d >= a * d + d
    decreases b - a
  {
    assert b * d == (b - 1) * d + d;
    if a < b - 1 { Larger(a, b - 1, d); }
  }

  /** What divides a page, or is a multiple of one, divides as much of a page address. */
  lemma PageAligned(base: nat, align: nat)
    requires base % 4096 == 0 && align > 0 && 4096 % align == 0
    ensures base % align == 0
  {
    var q, p := base / 4096, 4096 / align;
    assert base == q * p * align;
    MultipleOf(q * p, align);
  }

  /** Different slots are at least one stride apart, so objects never overlap. */
  lemma {:induction false} SlotsApart(base: int, stride: int, n: nat, a: int, b: int)
    requires stride >= 4 && stride % 4 == 0 && a in SlotSet(base, stride, n) && b in SlotSet(base, stride, n) && a != b
    ensures a + stride <= b || b + stride <= a
  {
    var last := base + (n - 1) * stride;
    if a != last && b != last {
      SlotsApart(base, stride, n - 1, a, b);
    } else if a == last {
      SlotBounds(base, stride, n - 1, b);
    } else {
      SlotBounds(base, stride, n - 1, a);
    }
  }

  lemma {:induction false} SlotCount(base: int, stride: int, n: nat)
    requires stride >= 4 && stride % 4 == 0
    ensures |SlotSet(base, stride, n)| == n
  {
    if n > 0 {
      SlotCount(base, stride, n - 1);
      var last := base + (n - 1) * stride;
      if last in SlotSet(base, stride, n - 1) {
        SlotBounds(base, stride, n - 1, last);
      }
    }
  }

  ghost predicate Distinct(c: seq<int>) {
    forall i, j :: 0 <= i < j < |c| ==> c[i] != c[j]
  }

  lemma {:induction false} ElementCount(c: seq<int>)
    requires Distinct(c)
    ensures |(set x | x in c)| == |c|
  {
    if c != [] {
      ElementCount(c[1..]);
      assert (set x | x in c) == (set x | x in c[1..]) + {c[0]};
    }
  }

  /** A slab whose free chain misses a slot has fewer free slots than objects, and conversely. */
  lemma ChainRoom(base: int, stride: int, n: nat, c: seq<int>)
    requires stride >= 4 && stride % 4 == 0 && Distinct(c)
    requires forall x :: x in c ==> x in SlotSet(base, stride, n)
    ensures |c| <= n
    ensures |c| == n <==> forall a :: a in SlotSet(base, stride, n) ==> a in c
  {
    var cs := set x | x in c;
    var ss := SlotSet(base, stride, n);
    ElementCount(c);
    SlotCount(base, stride, n);
    SubsetCount(cs, ss);
    if |c| == n {
      SubsetEqual(cs, ss);
    } else if forall a :: a in ss ==> a in c {
      SubsetCount(ss, cs);
    }
  }

  lemma SubsetCount(a: set<int>, b: set<int>)
    requires a <= b
    ensures |a| <= |b|
  {
    assert b == a + (b - a);
  }

  lemma SubsetEqual(a: set<int>, b: set<int>)
    requires a <= b && |a| == |b|
    ensures a == b
  {
    assert b == a + (b - a);
    assert |b - a| == 0;
  }

  // ------------------------------------------------------------------------ state

  datatype Desc = Desc(base: int, total: int, freeCount: int, freelist: int, next: int)

  datatype Home = Partial | Full | Empty | Loose

  /** What slab_cache_create computes for a cache. */
  datatype Geometry = Geometry(objSize: int, align: nat, stride: int, objs: nat, pages: nat)

  /**
   The descriptors, the memory and the three list heads, as the code has them; and what they
   stand for: the three lists, the list each slab is in, its free chain, the live objects.
   */
  datatype State = State(
    desc: map<int, Desc>, mem: Memory, partial: int, full: int, empty: int,
    partials: seq<int>, fulls: seq<int>, empties: seq<int>,
    homes: map<int, Home>, chains: map<int, seq<int>>, live: set<int>)

  ghost predicate Sound(g: Geometry) {
    g.stride >= 4 && g.stride % 4 == 0 && 0 <= g.objSize <= g.stride && g.objs >= 1
    && 1 <= g.pages <= 4 && g.objs * g.stride <= 4096 * g.pages && g.align > 0 && g.stride % g.align == 0
  }

  function ListOf(st: State, h: Home): seq<int> {
    match h case Partial => st.partials case Full => st.fulls case Empty => st.empties case Loose => []
  }

  function HeadOf(st: State, h: Home): int {
    match h case Partial => st.partial case Full => st.full case Empty => st.empty case Loose => 0
  }

  function WithList(st: State, h: Home, head: int, l: seq<int>): (r: State)
    ensures r.desc == st.desc && r.mem == st.mem && r.homes == st.homes && r.chains == st.chains && r.live == st.live
    ensures h != Loose ==> ListOf(r, h) == l && HeadOf(r, h) == head
    ensures forall x :: x != h ==> ListOf(r, x) == ListOf(st, x) && HeadOf(r, x) == HeadOf(st, x)
  {
    match h
    case Partial => st.(partial := head, partials := l)
    case Full => st.(full := head, fulls := l)
    case Empty => st.(empty := head, empties := l)
    case Loose => st
  }

  function First(c: seq<int>): int { if c == [] then 0 else c[0] }

  function Next(c: seq<int>, k: nat): int { if k + 1 < |c| then c[k + 1] else 0 }

  ghost function Slots(g: Geometry, st: State, p: int): set<int>
    requires p in st.desc
  {
    SlotSet(st.desc[p].base, g.stride, g.objs)
  }

  // -------------------------------------------------------------------- the invariant

  /** Position k of list h: linked to its successor, and known to be there. */
  ghost predicate LinkAt(st: State, h: Home, k: nat)
    requires k < |ListOf(st, h)|
  {
    var l := ListOf(st, h);
    l[k] != 0 && l[k] in st.desc && l[k] in st.homes && st.homes[l[k]] == h && st.desc[l[k]].next == Next(l, k)
  }

  ghost predicate ListOk(st: State, h: Home) {
    HeadOf(st, h) == First(ListOf(st, h)) && Distinct(ListOf(st, h))
  }

  /** Slab p: its chain runs through distinct slots, exactly those without a live object. */
  ghost predicate SlabOk(g: Geometry, st: State, used: seq<bool>, p: int) {
    p in st.homes ==>
      p != 0 && p in st.desc && p in st.chains
      && (st.homes[p] != Loose ==> p in ListOf(st, st.homes[p]))
      && var d, c := st.desc[p], st.chains[p];
         d.total == g.objs && d.freeCount == |c| && d.freelist == First(c) && Distinct(c)
         && (forall k :: 0 <= k < |c| ==> Load(st.mem, c[k]) == Next(c, k))
         && (forall a :: a in c ==> a in Slots(g, st, p))
         && (forall a :: a in Slots(g, st, p) ==> (a in st.live <==> a !in c))
         && d.base % 4096 == 0 && 1 <= Pfn(d.base) && Pfn(d.base) + g.pages <= |used|
         && forall f :: Pfn(d.base) <= f < Pfn(d.base) + g.pages ==> used[f]
  }

  /** The page runs of two slabs do not overlap. */
  ghost predicate Apart(g: Geometry, st: State, p: int, q: int) {
    p in st.homes && q in st.homes && p != q && p in st.desc && q in st.desc ==>
      st.desc[p].base + 4096 * g.pages <= st.desc[q].base || st.desc[q].base + 4096 * g.pages <= st.desc[p].base
  }

  ghost predicate LiveOk(g: Geometry, st: State, a: int) {
    a in st.live ==> exists p :: p in st.homes && p in st.desc && a in Slots(g, st, p)
  }

  ghost predicate Core(g: Geometry, st: State, used: seq<bool>) {
    Sound(g)
    && (forall h :: h != Loose ==> ListOk(st, h))
    && (forall h, k :: 0 <= k < |ListOf(st, h)| ==> LinkAt(st, h, k))
    && (forall p :: SlabOk(g, st, used, p))
    && (forall p, q :: Apart(g, st, p, q))
    && (forall a :: LiveOk(g, st, a))
  }

  /** Every slab is in the list that its number of free slots calls for. */
  ghost predicate Filed(g: Geometry, st: State, p: int) {
    p in st.homes && p in st.desc ==>
      match st.homes[p]
      case Partial => 0 < st.desc[p].freeCount < g.objs
      case Full => st.desc[p].freeCount == 0
      case Empty => st.desc[p].freeCount == g.objs
      case Loose => false
  }

  ghost predicate Inv(g: Geometry, st: State, used: seq<bool>) {
    Core(g, st, used) && forall p :: Filed(g, st, p)
  }

  // ------------------------------------------------------------------------- steps

  /** The first free slot leaves the chain, whose next slot its first word names, and becomes live. */
  function Pop(st: State, p: int): State
    requires p in st.desc && p in st.chains && st.chains[p] != []
  {
    var d := st.desc[p];
    st.(desc := st.desc[p := d.(freelist := Load(st.mem, d.freelist), freeCount := d.freeCount - 1)],
        chains := st.chains[p := st.chains[p][1..]], live := st.live + {d.freelist})
  }

  /** Taking position i out of list h: the predecessor's link, or the head, skips it. */
  function Unlink(st: State, h: Home, i: nat): (r: State)
    requires i < |ListOf(st, h)| && ListOf(st, h)[i] in st.desc && (i > 0 ==> ListOf(st, h)[i - 1] in st.desc)
    ensures var l := ListOf(st, h);
            ListOf(r, h) == l[..i] + l[i + 1..]
            && HeadOf(r, h) == (if i == 0 then st.desc[l[i]].next else HeadOf(st, h))
            && r.desc == (if i == 0 then st.desc
                          else st.desc[l[i - 1] := st.desc[l[i - 1]].(next := st.desc[l[i]].next)])
            && r.homes == st.homes[l[i] := Loose]
    ensures r.mem == st.mem && r.chains == st.chains && r.live == st.live
    ensures forall x :: x != h ==> ListOf(r, x) == ListOf(st, x) && HeadOf(r, x) == HeadOf(st, x)
  {
    var l := ListOf(st, h);
    var next := st.desc[l[i]].next;
    var st1 := if i == 0 then st else st.(desc := st.desc[l[i - 1] := st.desc[l[i - 1]].(next := next)]);
    WithList(st1, h, if i == 0 then next else HeadOf(st, h), l[..i] + l[i + 1..]).(homes := st.homes[l[i] := Loose])
  }

  /** The slab becomes the head of the list. */
  function Push(st: State, h: Home, p: int): (r: State)
    requires p in st.desc
    ensures h != Loose ==> ListOf(r, h) == [p] + ListOf(st, h) && HeadOf(r, h) == p
    ensures r.desc == st.desc[p := st.desc[p].(next := HeadOf(st, h))] && r.homes == st.homes[p := h]
    ensures r.mem == st.mem && r.chains == st.chains && r.live == st.live
    ensures forall x :: x != h ==> ListOf(r, x) == ListOf(st, x) && HeadOf(r, x) == HeadOf(st, x)
  {
    var st1 := st.(desc := st.desc[p := st.desc[p].(next := HeadOf(st, h))]);
    WithList(st1, h, p, [p] + ListOf(st, h)).(homes := st.homes[p := h])
  }

  /** The object becomes the first free slot, its first word naming the next; it is no longer live. */
  function Give(st: State, p: int, obj: int): State
    requires p in st.desc && p in st.chains
  {
    var d := st.desc[p];
    st.(mem := st.mem[obj := d.freelist],
        desc := st.desc[p := d.(freelist := obj, freeCount := d.freeCount + 1)],
        chains := st.chains[p := [obj] + st.chains[p]], live := st.live - {obj})
  }

  lemma PopCore(g: Geometry, st: State, used: seq<bool>, p: int)
    requires Core(g, st, used) && p in st.homes && p in st.desc && p in st.chains && st.chains[p] != []
    ensures Core(g, Pop(st, p), used)
    ensures var obj := st.desc[p].freelist; obj == st.chains[p][0] && obj in Slots(g, st, p) && obj !in st.live
  {
    var st' := Pop(st, p);
    var obj := st.desc[p].freelist;
    assert SlabOk(g, st, used, p);
    forall h, k | 0 <= k < |ListOf(st', h)|
      ensures LinkAt(st', h, k)
    {
      assert LinkAt(st, h, k);
    }
    forall h | h != Loose
      ensures ListOk(st', h)
    {
      assert ListOk(st, h);
    }
    forall q
      ensures SlabOk(g, st', used, q)
    {
      assert SlabOk(g, st, used, q);
      assert Apart(g, st, p, q);
      SlotElsewhere(g, st, used, p, q, obj);
    }
    forall q, r
      ensures Apart(g, st', q, r)
    {
      assert Apart(g, st, q, r);
    }
    forall a
      ensures LiveOk(g, st', a)
    {
      assert LiveOk(g, st, a);
      if a in st.live {
        var q :| q in st.homes && q in st.desc && a in Slots(g, st, q);
        assert a in Slots(g, st', q);
      } else {
        assert a == obj ==> a in Slots(g, st', p);
      }
    }
  }

  /** A slot of one slab is no slot of another. */
  lemma SlotElsewhere(g: Geometry, st: State, used: seq<bool>, p: int, q: int, a: int)
    requires Sound(g) && Apart(g, st, p, q) && p in st.homes && p in st.desc && a in Slots(g, st, p)
    ensures q != p && q in st.homes && q in st.desc ==> a !in Slots(g, st, q)
  {
    if q != p && q in st.homes && q in st.desc {
      SlotBounds(st.desc[p].base, g.stride, g.objs, a);
      if a in Slots(g, st, q) {
        SlotBounds(st.desc[q].base, g.stride, g.objs, a);
      }
    }
  }

  /** Removing the element at i from a list: where the others end up. */
  lemma ListRemove(l: seq<int>, i: nat)
    requires i < |l| && Distinct(l)
    ensures var r := l[..i] + l[i + 1..];
            Distinct(r) && l[i] !in r && (forall x :: x in l && x != l[i] ==> x in r) && (forall x :: x in r ==> x in l)
  {
    var r := l[..i] + l[i + 1..];
    forall x | x in l && x != l[i]
      ensures x in r
    {
      var k :| 0 <= k < |l| && l[k] == x;
      assert r[if k < i then k else k - 1] == x;
    }
  }

  /** What both unlinking and pushing change: descriptors only in next, one list, one home. */
  lemma RelinkCore(g: Geometry, st: State, st': State, used: seq<bool>, p: int, hp: Home)
    requires Core(g, st, used)
    requires st'.mem == st.mem && st'.chains == st.chains && st'.live == st.live
    requires p in st.homes && st'.homes == st.homes[p := hp] && (hp != Loose ==> p in ListOf(st', hp))
    requires forall q ::
               q in st.homes && q in st.desc
               ==> q in st'.desc && st'.desc[q] == st.desc[q].(next := st'.desc[q].next)
    requires forall q ::
               q in st.homes && q != p && st.homes[q] != Loose && q in ListOf(st, st.homes[q])
               ==> q in ListOf(st', st.homes[q])
    requires forall h :: h != Loose ==> ListOk(st', h)
    requires forall h, k :: 0 <= k < |ListOf(st', h)| ==> LinkAt(st', h, k)
    ensures Core(g, st', used)
  {
    forall q
      ensures SlabOk(g, st', used, q)
    {
      assert SlabOk(g, st, used, q);
    }
    forall q, r
      ensures Apart(g, st', q, r)
    {
      assert SlabOk(g, st, used, q) && SlabOk(g, st, used, r) && Apart(g, st, q, r);
    }
    forall a
      ensures LiveOk(g, st', a)
    {
      assert LiveOk(g, st, a);
      if a in st.live {
        var q :| q in st.homes && q in st.desc && a in Slots(g, st, q);
        assert a in Slots(g, st', q);
      }
    }
  }

  /** A list without its element i: where its elements come from, and what follows them. */
  lemma RemovedAt(l: seq<int>, i: nat, k: nat)
    requires i < |l| && k + 1 < |l|
    ensures var r := l[..i] + l[i + 1..];
            r[k] == (if k < i then l[k] else l[k + 1])
            && Next(r, k) == if k + 1 < i then l[k + 1] else if k + 1 == i then Next(l, i) else Next(l, k + 1)
  {
  }

  /** In front of the predecessor of element i nothing changes. */
  lemma UnlinkAbove(st: State, h: Home, i: nat, k: nat)
    requires h != Loose && i < |ListOf(st, h)| && k + 1 < i
    requires LinkAt(st, h, k) && LinkAt(st, h, i) && LinkAt(st, h, i - 1)
    requires ListOf(st, h)[k] != ListOf(st, h)[i] && ListOf(st, h)[k] != ListOf(st, h)[i - 1]
    ensures LinkAt(Unlink(st, h, i), h, k)
  {
    RemovedAt(ListOf(st, h), i, k);
  }

  /** The predecessor is linked to the successor. */
  lemma UnlinkAt(st: State, h: Home, i: nat)
    requires h != Loose && 0 < i < |ListOf(st, h)| && LinkAt(st, h, i) && LinkAt(st, h, i - 1)
    requires ListOf(st, h)[i - 1] != ListOf(st, h)[i]
    ensures LinkAt(Unlink(st, h, i), h, i - 1)
  {
    RemovedAt(ListOf(st, h), i, i - 1);
  }

  /** Behind element i every element moves up one place. */
  lemma UnlinkBelow(st: State, h: Home, i: nat, k: nat)
    requires h != Loose && i <= k && k + 1 < |ListOf(st, h)| && LinkAt(st, h, k + 1) && LinkAt(st, h, i)
    requires i > 0 ==> LinkAt(st, h, i - 1) && ListOf(st, h)[k + 1] != ListOf(st, h)[i - 1]
    requires ListOf(st, h)[k + 1] != ListOf(st, h)[i]
    ensures LinkAt(Unlink(st, h, i), h, k)
  {
    RemovedAt(ListOf(st, h), i, k);
  }

  /** The list that loses its element i stays linked. */
  lemma UnlinkSame(g: Geometry, st: State, used: seq<bool>, h: Home, i: nat, k: nat)
    requires Core(g, st, used) && i < |ListOf(st, h)| && k + 1 < |ListOf(st, h)| && h != Loose
    requires ListOf(st, h)[i] in st.desc && (i > 0 ==> ListOf(st, h)[i - 1] in st.desc)
    ensures ListOf(Unlink(st, h, i), h) == ListOf(st, h)[..i] + ListOf(st, h)[i + 1..]
    ensures LinkAt(Unlink(st, h, i), h, k)
  {
    assert ListOk(st, h) && LinkAt(st, h, i);
    if i > 0 { assert LinkAt(st, h, i - 1); }
    if k + 1 < i {
      assert LinkAt(st, h, k);
      UnlinkAbove(st, h, i, k);
    } else if k + 1 == i {
      UnlinkAt(st, h, i);
    } else {
      assert LinkAt(st, h, k + 1);
      UnlinkBelow(st, h, i, k);
    }
  }

  lemma UnlinkCore(g: Geometry, st: State, used: seq<bool>, h: Home, i: nat)
    requires Core(g, st, used) && i < |ListOf(st, h)|
    ensures ListOf(st, h)[i] in st.desc && (i > 0 ==> ListOf(st, h)[i - 1] in st.desc)
    ensures Core(g, Unlink(st, h, i), used)
  {
    var l := ListOf(st, h);
    var p := l[i];
    assert LinkAt(st, h, i) && ListOk(st, h);
    if i > 0 { assert LinkAt(st, h, i - 1); }
    var st' := Unlink(st, h, i);
    ListRemove(l, i);
    forall x | x != Loose
      ensures ListOk(st', x)
    {
      assert ListOk(st, x);
    }
    forall x, k | 0 <= k < |ListOf(st', x)|
      ensures LinkAt(st', x, k)
    {
      if x == h { UnlinkSame(g, st, used, h, i, k); } else { assert LinkAt(st, x, k); }
    }
    RelinkCore(g, st, st', used, p, Loose);
  }

  lemma PushCore(g: Geometry, st: State, used: seq<bool>, h: Home, p: int)
    requires Core(g, st, used) && p in st.homes && st.homes[p] == Loose && h != Loose
    ensures p in st.desc && Core(g, Push(st, h, p), used)
  {
    assert SlabOk(g, st, used, p);
    PushLinks(g, st, used, h, p);
    RelinkCore(g, st, Push(st, h, p), used, p, h);
  }

  lemma PushLinks(g: Geometry, st: State, used: seq<bool>, h: Home, p: int)
    requires Core(g, st, used) && p in st.homes && st.homes[p] == Loose && h != Loose && p in st.desc && p != 0
    ensures var st' := Push(st, h, p);
            (forall x :: x != Loose ==> ListOk(st', x))
            && forall x, k :: 0 <= k < |ListOf(st', x)| ==> LinkAt(st', x, k)
  {
    assert ListOk(st, h);
    var st' := Push(st, h, p);
    forall x, k | 0 <= k < |ListOf(st, x)|
      ensures ListOf(st, x)[k] != p
    {
      assert LinkAt(st, x, k);
    }
    forall x | x != Loose
      ensures ListOk(st', x)
    {
      assert ListOk(st, x);
    }
    forall x, k | 0 <= k < |ListOf(st', x)|
      ensures LinkAt(st', x, k)
    {
      if x == h {
        if k > 0 { assert LinkAt(st, h, k - 1); }
      } else {
        assert LinkAt(st, x, k);
      }
    }
  }

  lemma GiveCore(g: Geometry, st: State, used: seq<bool>, p: int, obj: int)
    requires Core(g, st, used) && p in st.homes && p in st.desc && obj in Slots(g, st, p) && obj in st.live
    ensures p in st.chains && |st.chains[p]| < g.objs && Core(g, Give(st, p, obj), used)
  {
    assert SlabOk(g, st, used, p);
    ChainRoom(st.desc[p].base, g.stride, g.objs, st.chains[p]);
    var st' := Give(st, p, obj);
    forall h, k | 0 <= k < |ListOf(st', h)|
      ensures LinkAt(st', h, k)
    {
      assert LinkAt(st, h, k);
    }
    forall h | h != Loose
      ensures ListOk(st', h)
    {
      assert ListOk(st, h);
    }
    forall q
      ensures SlabOk(g, st', used, q)
    {
      assert SlabOk(g, st, used, q) && Apart(g, st, p, q);
      SlotElsewhere(g, st, used, p, q, obj);
    }
    forall q, r
      ensures Apart(g, st', q, r)
    {
      assert Apart(g, st, q, r);
    }
    forall a
      ensures LiveOk(g, st', a)
    {
      assert LiveOk(g, st, a);
      if a in st'.live {
        var q :| q in st.homes && q in st.desc && a in Slots(g, st, q);
        assert a in Slots(g, st', q);
      }
    }
  }

  /** Stores inside a live object disturb no free chain. */
  lemma ObjectWriteCore(g: Geometry, st: State, used: seq<bool>, p: int, obj: int, m: Memory)
    requires Core(g, st, used) && p in st.homes && p in st.desc && obj in Slots(g, st, p) && obj in st.live
    requires WritesOnly(st.mem, m, obj, obj + g.objSize)
    ensures Core(g, st.(mem := m), used)
  {
    var st' := st.(mem := m);
    SlotBounds(st.desc[p].base, g.stride, g.objs, obj);
    forall h, k | 0 <= k < |ListOf(st', h)|
      ensures LinkAt(st', h, k)
    {
      assert LinkAt(st, h, k);
    }
    forall h | h != Loose
      ensures ListOk(st', h)
    {
      assert ListOk(st, h);
    }
    forall q
      ensures SlabOk(g, st', used, q)
    {
      assert SlabOk(g, st, used, q) && Apart(g, st, p, q) && SlabOk(g, st, used, p);
      if q in st.homes {
        forall k | 0 <= k < |st.chains[q]|
          ensures Load(m, st.chains[q][k]) == Load(st.mem, st.chains[q][k])
        {
          var a := st.chains[q][k];
          assert a in st.chains[q];
          SlotBounds(st.desc[q].base, g.stride, g.objs, a);
          if q == p { SlotsApart(st.desc[p].base, g.stride, g.objs, obj, a); }
        }
      }
    }
    forall q, r
      ensures Apart(g, st', q, r)
    {
      assert Apart(g, st, q, r);
    }
    forall a
      ensures LiveOk(g, st', a)
    {
      assert LiveOk(g, st, a);
      if a in st.live {
        var q :| q in st.homes && q in st.desc && a in Slots(g, st, q);
        assert a in Slots(g, st', q);
      }
    }
  }

  lemma ObjectWriteInv(g: Geometry, st: State, used: seq<bool>, p: int, obj: int, m: Memory)
    requires Inv(g, st, used) && p in st.homes && p in st.desc && obj in Slots(g, st, p) && obj in st.live
    requires WritesOnly(st.mem, m, obj, obj + g.objSize)
    ensures Inv(g, st.(mem := m), used)
  {
    ObjectWriteCore(g, st, used, p, obj, m);
    forall q
      ensures Filed(g, st.(mem := m), q)
    {
      assert Filed(g, st, q);
    }
  }

  // ------------------------------------------------------------- allocation as a whole

  /** slab_alloc once the slab p to allocate from is chosen. */
  function AllocResult(g: Geometry, st: State, p: int): State
    requires p in st.desc && p in st.chains && st.chains[p] != []
    requires st.partials != [] ==> st.partials[0] in st.desc
    requires st.empties != [] ==> st.empties[0] in st.desc
  {
    var s1 := Pop(st, p);
    if s1.desc[p].freeCount == 0 then
      Push(if st.partial == p && st.partials != [] then Unlink(s1, Partial, 0) else s1, Full, p)
    else if s1.desc[p].freeCount == g.objs - 1 then
      Push(if st.empty == p && st.empties != [] then Unlink(s1, Empty, 0) else s1, Partial, p)
    else s1
  }

  /** The slab slab_alloc chooses: the first partial one, else the first empty one, else a new one. */
  ghost predicate Chosen(g: Geometry, st: State, p: int) {
    p in st.homes && p in st.desc
    && (if st.partials != [] then p == st.partial
        else if st.empties != [] then p == st.empty
        else st.homes[p] == Loose && st.desc[p].freeCount == g.objs)
  }

  lemma HeadsExist(g: Geometry, st: State, used: seq<bool>, h: Home)
    requires Core(g, st, used) && h != Loose
    ensures ListOf(st, h) != []
            ==> ListOf(st, h)[0] in st.desc && st.homes.Keys >= {ListOf(st, h)[0]}
                && st.homes[ListOf(st, h)[0]] == h
    ensures HeadOf(st, h) == 0 <==> ListOf(st, h) == []
    ensures ListOf(st, h) != [] ==> HeadOf(st, h) == ListOf(st, h)[0]
  {
    assert ListOk(st, h);
    if ListOf(st, h) != [] { assert LinkAt(st, h, 0); }
  }

  lemma MembersExist(g: Geometry, st: State, used: seq<bool>, h: Home)
    requires Core(g, st, used) && h != Loose
    ensures forall k :: 0 <= k < |ListOf(st, h)| ==> ListOf(st, h)[k] != 0 && ListOf(st, h)[k] in st.desc
    ensures HeadOf(st, h) == First(ListOf(st, h))
  {
    assert ListOk(st, h);
    forall k | 0 <= k < |ListOf(st, h)|
      ensures ListOf(st, h)[k] != 0 && ListOf(st, h)[k] in st.desc
    {
      assert LinkAt(st, h, k);
    }
  }

  /**
   Allocation hands out a slot that held no live object, and keeps every slab in the right
   list, unless the slab holds a single object and was waiting in the empty list.
   */
  lemma AllocKeepsInv(g: Geometry, st: State, used: seq<bool>, p: int)
    requires Core(g, st, used) && Chosen(g, st, p)
    requires forall q :: q != p || st.homes[p] != Loose ==> Filed(g, st, q)
    requires !(g.objs == 1 && st.homes[p] == Empty)
    ensures p in st.chains && st.chains[p] != []
    ensures st.partials != [] ==> st.partials[0] in st.desc
    ensures st.empties != [] ==> st.empties[0] in st.desc
    ensures var obj := st.desc[p].freelist;
            obj in Slots(g, st, p) && obj !in st.live
            && AllocResult(g, st, p).live == st.live + {obj}
    ensures Inv(g, AllocResult(g, st, p), used)
  {
    HeadsExist(g, st, used, Partial);
    HeadsExist(g, st, used, Empty);
    assert SlabOk(g, st, used, p);
    if st.homes[p] != Loose { assert Filed(g, st, p); }
    PopCore(g, st, used, p);
    var s1 := Pop(st, p);
    if s1.desc[p].freeCount == 0 {
      if st.partials != [] { UnlinkCore(g, s1, used, Partial, 0); }
      PushCore(g, if st.partials != [] then Unlink(s1, Partial, 0) else s1, used, Full, p);
    } else if s1.desc[p].freeCount == g.objs - 1 {
      if st.homes[p] == Empty { UnlinkCore(g, s1, used, Empty, 0); }
      PushCore(g, if st.homes[p] == Empty then Unlink(s1, Empty, 0) else s1, used, Partial, p);
    }
    AllocKeepsFiled(g, st, used, p);
  }

  /** The slab that lost a slot is where its new count calls for, and no other slab has moved. */
  lemma AllocKeepsFiled(g: Geometry, st: State, used: seq<bool>, p: int)
    requires Core(g, st, used) && Chosen(g, st, p)
    requires p in st.chains && st.chains[p] != []
    requires st.partials != [] ==> st.partials[0] in st.desc
    requires st.empties != [] ==> st.empties[0] in st.desc
    requires forall q :: q != p || st.homes[p] != Loose ==> Filed(g, st, q)
    requires !(g.objs == 1 && st.homes[p] == Empty)
    ensures forall q :: Filed(g, AllocResult(g, st, p), q)
  {
    HeadsExist(g, st, used, Partial);
    HeadsExist(g, st, used, Empty);
    assert SlabOk(g, st, used, p);
    if st.homes[p] != Loose { assert Filed(g, st, p); }
    forall q
      ensures Filed(g, AllocResult(g, st, p), q)
    {
      if q != p { assert Filed(g, st, q); }
    }
  }

  /**
   With one object per slab, allocating from the empty list pushes the slab to the full list
   without taking it off the empty one: both heads then name the same slab, which no valid
   cache allows. Together with AllocKeepsInv: allocation keeps the invariant exactly when the
   slab holds at least two objects or was not waiting in the empty list.
   */
  lemma OneObjectBreaks(g: Geometry, st: State, used: seq<bool>, p: int)
    requires Inv(g, st, used) && Chosen(g, st, p) && g.objs == 1 && st.homes[p] == Empty
    ensures p in st.chains && st.chains[p] != []
    ensures st.partials != [] ==> st.partials[0] in st.desc
    ensures st.empties != [] ==> st.empties[0] in st.desc
    ensures AllocResult(g, st, p).full == AllocResult(g, st, p).empty == p != 0
    ensures forall t, u :: Core(g, t, u) && t.full != 0 ==> t.full != t.empty
    ensures !Inv(g, AllocResult(g, st, p), used)
  {
    HeadsExist(g, st, used, Partial);
    HeadsExist(g, st, used, Empty);
    assert SlabOk(g, st, used, p) && Filed(g, st, p);
    forall t, u | Core(g, t, u) && t.full != 0
      ensures t.full != t.empty
    {
      HeadsExist(g, t, u, Full);
      HeadsExist(g, t, u, Empty);
    }
  }

  /** Allocation followed by the stores into the new object. */
  lemma WipeKeepsInv(g: Geometry, st: State, used: seq<bool>, p: int, m: Memory)
    requires Core(g, st, used) && Chosen(g, st, p) && p in st.chains && st.chains[p] != []
    requires forall q :: q != p || st.homes[p] != Loose ==> Filed(g, st, q)
    requires st.partials != [] ==> st.partials[0] in st.desc
    requires st.empties != [] ==> st.empties[0] in st.desc
    requires WritesOnly(st.mem, m, st.desc[p].freelist, st.desc[p].freelist + g.objSize)
    ensures var r := AllocResult(g, st, p).(mem := m);
            if g.objs == 1 && st.homes[p] == Empty then r.full == r.empty == p && !Inv(g, r, used) else Inv(g, r, used)
  {
    var s1 := AllocResult(g, st, p);
    if g.objs == 1 && st.homes[p] == Empty {
      OneObjectBreaks(g, st, used, p);
      assert !Core(g, s1.(mem := m), used);
    } else {
      AllocKeepsInv(g, st, used, p);
      assert SlabOk(g, s1, used, p);
      ObjectWriteInv(g, s1, used, p, st.desc[p].freelist, m);
    }
  }

  // ---------------------------------------------------------------- freeing as a whole

  /** slab_free of obj, found in the slab at position i of list h. */
  function FreeResult(g: Geometry, st: State, h: Home, i: nat, obj: int): State
    requires i < |ListOf(st, h)| && ListOf(st, h)[i] in st.desc && ListOf(st, h)[i] in st.chains
    requires i > 0 ==> ListOf(st, h)[i - 1] in st.desc
  {
    var p := ListOf(st, h)[i];
    var s2 := Give(Unlink(st, h, i), p, obj);
    Push(s2, if s2.desc[p].freeCount == s2.desc[p].total then Empty else Partial, p)
  }

  /** Freeing makes exactly obj available again and keeps every slab in the right list. */
  lemma FreeKeepsInv(g: Geometry, st: State, used: seq<bool>, h: Home, i: nat, obj: int)
    requires Inv(g, st, used) && i < |ListOf(st, h)| && ListOf(st, h)[i] in st.desc
    requires obj in st.live && obj in Slots(g, st, ListOf(st, h)[i])
    ensures ListOf(st, h)[i] in st.chains && (i > 0 ==> ListOf(st, h)[i - 1] in st.desc)
    ensures FreeResult(g, st, h, i, obj).live == st.live - {obj}
    ensures Inv(g, FreeResult(g, st, h, i, obj), used)
  {
    var p := ListOf(st, h)[i];
    assert LinkAt(st, h, i) && SlabOk(g, st, used, p);
    UnlinkCore(g, st, used, h, i);
    var s1 := Unlink(st, h, i);
    GiveCore(g, s1, used, p, obj);
    var s2 := Give(s1, p, obj);
    PushCore(g, s2, used, if s2.desc[p].freeCount == g.objs then Empty else Partial, p);
    FreeFiles(g, st, used, h, i, obj);
  }

  lemma FreeFiles(g: Geometry, st: State, used: seq<bool>, h: Home, i: nat, obj: int)
    requires Inv(g, st, used) && i < |ListOf(st, h)| && ListOf(st, h)[i] in st.desc && ListOf(st, h)[i] in st.chains
    requires i > 0 ==> ListOf(st, h)[i - 1] in st.desc
    requires 0 <= st.desc[ListOf(st, h)[i]].freeCount < g.objs == st.desc[ListOf(st, h)[i]].total
    ensures forall q :: Filed(g, FreeResult(g, st, h, i, obj), q)
  {
    var p, r := ListOf(st, h)[i], FreeResult(g, st, h, i, obj);
    forall q
      ensures Filed(g, r, q)
    {
      assert Filed(g, st, q);
      assert SlabOk(g, st, used, q);
    }
  }

  /**
   The object freed last is the next one handed out, exactly if its slab is not all free by
   that, or no other slab is partly free.
   */
  lemma FreedIsNextIff(g: Geometry, st: State, used: seq<bool>, h: Home, i: nat, obj: int, q: int)
    requires Inv(g, st, used) && i < |ListOf(st, h)| && ListOf(st, h)[i] in st.desc && ListOf(st, h)[i] in st.chains
    requires i > 0 ==> ListOf(st, h)[i - 1] in st.desc
    requires obj in st.live && obj in Slots(g, st, ListOf(st, h)[i])
    requires Chosen(g, FreeResult(g, st, h, i, obj), q)
    ensures var p, st' := ListOf(st, h)[i], FreeResult(g, st, h, i, obj);
            q in st'.desc && p in st'.desc
            && (st'.desc[q].freelist == obj <==> st'.desc[p].freeCount < g.objs || st'.partials == [])
  {
    var p, st' := ListOf(st, h)[i], FreeResult(g, st, h, i, obj);
    assert SlabOk(g, st, used, p) && LinkAt(st, h, i);
    FreeKeepsInv(g, st, used, h, i, obj);
    HeadsExist(g, st', used, Partial);
    HeadsExist(g, st', used, Empty);
    assert SlabOk(g, st', used, p) && SlabOk(g, st', used, q) && Filed(g, st', q);
    if q != p {
      assert Apart(g, st', p, q);
      SlotElsewhere(g, st', used, p, q, obj);
      assert st'.desc[q].freelist in st'.chains[q];
    }
  }

  /** A live object lies in the page run of exactly one slab, so the search by address finds the right one. */
  lemma OwnerUnique(g: Geometry, st: State, used: seq<bool>, p: int, q: int, obj: int)
    requires Core(g, st, used) && p in st.homes && p in st.desc && obj in Slots(g, st, p)
    requires q in st.homes && q in st.desc && st.desc[q].base <= obj < st.desc[q].base + 4096 * g.pages
    ensures q == p
  {
    SlotBounds(st.desc[p].base, g.stride, g.objs, obj);
    assert Apart(g, st, p, q);
  }

  /** Every live object has an owner, whose run contains it. */
  lemma OwnerOf(g: Geometry, st: State, used: seq<bool>, obj: int) returns (p: int)
    requires Core(g, st, used) && obj in st.live
    ensures p in st.homes && p in st.desc && obj in Slots(g, st, p) && obj != 0
    ensures st.desc[p].base <= obj < st.desc[p].base + 4096 * g.pages
  {
    assert LiveOk(g, st, obj);
    p :| p in st.homes && p in st.desc && obj in Slots(g, st, p);
    assert SlabOk(g, st, used, p);
    SlotBounds(st.desc[p].base, g.stride, g.objs, obj);
  }

  // --------------------------------------------------------------------- a new slab

  ghost function SlotSeq(base: int, stride: int, n: nat): (c: seq<int>)
    ensures |c| == n && forall i :: 0 <= i < n ==> c[i] == base + i * stride
  {
    seq(n, i => base + i * stride)
  }

  lemma {:induction false} SlotSeqCovers(base: int, stride: int, n: nat)
    requires stride >= 4 && stride % 4 == 0
    ensures Distinct(SlotSeq(base, stride, n))
    ensures forall a :: a in SlotSeq(base, stride, n) <==> a in SlotSet(base, stride, n)
  {
    if n > 0 {
      SlotSeqCovers(base, stride, n - 1);
      var c, c' := SlotSeq(base, stride, n), SlotSeq(base, stride, n - 1);
      var last := base + (n - 1) * stride;
      assert c == c' + [last];
      if last in c' {
        SlotBounds(base, stride, n - 1, last);
      }
    }
  }

  /** slab_new: the descriptor and the chain of a slab whose slots are all free. */
  function WithNewSlab(g: Geometry, st: State, p: int, base: int, m: Memory, c: seq<int>): State {
    st.(desc := st.desc[p := Desc(base, g.objs, g.objs, base, 0)], mem := m,
        homes := st.homes[p := Loose], chains := st.chains[p := c])
  }

  lemma UsedApartFromFree(used: seq<bool>, a: nat, b: nat, n: nat)
    requires a + n <= |used| && (forall f :: a <= f < a + n ==> used[f]) && FreeRun(used, b, n) && n > 0
    ensures a + n <= b || b + n <= a
  {
    var f := if a < b then b else a;
    var shared := f < a + n && used[f];
  }

  lemma NewSlabCore(g: Geometry, st: State, used: seq<bool>, used': seq<bool>, p: int, base: int, m: Memory)
    requires Core(g, st, used) && p != 0 && p !in st.homes
    requires base % 4096 == 0 && FreeRun(used, Pfn(base), g.pages)
             && used' == Fill(used, Pfn(base), Pfn(base) + g.pages, true)
    requires WritesOnly(st.mem, m, base, base + g.objs * g.stride)
    requires forall k ::
               0 <= k < g.objs
               ==> Load(m, base + k * g.stride) == (if k + 1 < g.objs then base + (k + 1) * g.stride else 0)
    ensures Core(g, WithNewSlab(g, st, p, base, m, SlotSeq(base, g.stride, g.objs)), used')
  {
    var c := SlotSeq(base, g.stride, g.objs);
    var st' := WithNewSlab(g, st, p, base, m, c);
    SlotSeqCovers(base, g.stride, g.objs);
    forall q
      ensures q in st.homes && q in st.desc
              ==> st.desc[q].base + 4096 * g.pages <= base || base + 4096 * g.pages <= st.desc[q].base
    {
      assert SlabOk(g, st, used, q);
      if q in st.homes {
        UsedApartFromFree(used, Pfn(st.desc[q].base), Pfn(base), g.pages);
      }
    }
    NewSlabLinks(g, st, used, p, st');
    forall q
      ensures SlabOk(g, st', used', q)
    {
      NewSlabSlots(g, st, used, used', p, base, m, q);
    }
    forall q, r
      ensures Apart(g, st', q, r)
    {
      assert Apart(g, st, q, r);
    }
    forall a
      ensures LiveOk(g, st', a)
    {
      assert LiveOk(g, st, a);
      if a in st.live {
        var q :| q in st.homes && q in st.desc && a in Slots(g, st, q);
        assert a in Slots(g, st', q);
      }
    }
  }

  /** The slots of the new slab are free, those of the others as they were. */
  lemma NewSlabSlots(g: Geometry, st: State, used: seq<bool>, used': seq<bool>, p: int, base: int, m: Memory, q: int)
    requires Core(g, st, used) && p != 0 && p !in st.homes
    requires base % 4096 == 0 && FreeRun(used, Pfn(base), g.pages)
             && used' == Fill(used, Pfn(base), Pfn(base) + g.pages, true)
    requires WritesOnly(st.mem, m, base, base + g.objs * g.stride)
    requires forall k ::
               0 <= k < g.objs
               ==> Load(m, base + k * g.stride) == (if k + 1 < g.objs then base + (k + 1) * g.stride else 0)
    requires forall q ::
               q in st.homes && q in st.desc
               ==> st.desc[q].base + 4096 * g.pages <= base || base + 4096 * g.pages <= st.desc[q].base
    ensures SlabOk(g, WithNewSlab(g, st, p, base, m, SlotSeq(base, g.stride, g.objs)), used', q)
  {
    assert SlabOk(g, st, used, q);
    if q == p {
      SlotSeqCovers(base, g.stride, g.objs);
      NewSlotsDead(g, st, used, base);
    } else if q in st.homes {
      ChainUntouched(g, st, used, q, base, m);
    }
  }

  lemma OthersFiled(g: Geometry, st: State, st': State, p: int)
    requires (forall q :: Filed(g, st, q)) && st'.homes == st.homes[p := Loose]
    requires forall q :: q != p ==> (q in st.desc <==> q in st'.desc) && (q in st.desc ==> st'.desc[q] == st.desc[q])
    ensures forall q :: q != p ==> Filed(g, st', q)
  {
    forall q | q != p
      ensures Filed(g, st', q)
    {
      assert Filed(g, st, q);
    }
  }

  /** What a new slab changes and what it leaves alone. */
  lemma NewSlabInstalled(g: Geometry, st: State, used: seq<bool>, used': seq<bool>, p: int, base: int, m: Memory)
    requires Core(g, st, used) && (forall q :: Filed(g, st, q)) && p != 0 && p !in st.homes
    requires base % 4096 == 0 && FreeRun(used, Pfn(base), g.pages)
             && used' == Fill(used, Pfn(base), Pfn(base) + g.pages, true)
    requires WritesOnly(st.mem, m, base, base + g.objs * g.stride)
    requires forall k ::
               0 <= k < g.objs
               ==> Load(m, base + k * g.stride) == (if k + 1 < g.objs then base + (k + 1) * g.stride else 0)
    ensures var st' := WithNewSlab(g, st, p, base, m, SlotSeq(base, g.stride, g.objs));
            Core(g, st', used') && (forall q :: q != p ==> Filed(g, st', q)) && ObjectsKept(g, st.mem, m, st.live)
  {
    KeptByNewSlab(g, st, used, base, m);
    NewSlabCore(g, st, used, used', p, base, m);
    OthersFiled(g, st, WithNewSlab(g, st, p, base, m, SlotSeq(base, g.stride, g.objs)), p);
  }

  lemma NewSlabLinks(g: Geometry, st: State, used: seq<bool>, p: int, st': State)
    requires Core(g, st, used) && p !in st.homes
    requires st'.partial == st.partial && st'.full == st.full && st'.empty == st.empty
    requires st'.partials == st.partials && st'.fulls == st.fulls && st'.empties == st.empties
    requires st'.homes == st.homes[p := Loose]
             && forall q :: q in st.desc && q != p ==> q in st'.desc && st'.desc[q] == st.desc[q]
    ensures forall h :: h != Loose ==> ListOk(st', h)
    ensures forall h, k :: 0 <= k < |ListOf(st', h)| ==> LinkAt(st', h, k)
  {
    forall h | h != Loose
      ensures ListOk(st', h)
    {
      assert ListOk(st, h);
    }
    forall h, k | 0 <= k < |ListOf(st', h)|
      ensures LinkAt(st', h, k)
    {
      assert LinkAt(st, h, k);
    }
  }

  /** The chain of a slab whose run lies elsewhere is untouched by stores to a new run. */
  lemma ChainUntouched(g: Geometry, st: State, used: seq<bool>, q: int, base: int, m: Memory)
    requires Core(g, st, used) && q in st.homes && q in st.desc && q in st.chains
    requires WritesOnly(st.mem, m, base, base + g.objs * g.stride)
    requires st.desc[q].base + 4096 * g.pages <= base || base + 4096 * g.pages <= st.desc[q].base
    ensures forall k :: 0 <= k < |st.chains[q]| ==> Load(m, st.chains[q][k]) == Load(st.mem, st.chains[q][k])
  {
    assert SlabOk(g, st, used, q);
    forall k | 0 <= k < |st.chains[q]|
      ensures Load(m, st.chains[q][k]) == Load(st.mem, st.chains[q][k])
    {
      var a := st.chains[q][k];
      assert a in st.chains[q];
      SlotBounds(st.desc[q].base, g.stride, g.objs, a);
    }
  }

  /** No live object lies in a run that was free. */
  lemma NewSlotsDead(g: Geometry, st: State, used: seq<bool>, base: int)
    requires Core(g, st, used)
    requires forall q ::
               q in st.homes && q in st.desc
               ==> st.desc[q].base + 4096 * g.pages <= base || base + 4096 * g.pages <= st.desc[q].base
    ensures forall a :: a in SlotSet(base, g.stride, g.objs) ==> a !in st.live
  {
    forall a | a in SlotSet(base, g.stride, g.objs)
      ensures a !in st.live
    {
      SlotBounds(base, g.stride, g.objs, a);
      assert LiveOk(g, st, a);
      if a in st.live {
        var q :| q in st.homes && q in st.desc && a in Slots(g, st, q);
        SlotBounds(st.desc[q].base, g.stride, g.objs, a);
      }
    }
  }

  /** Objects handed out by one cache never overlap. */
  lemma ObjectsDisjoint(g: Geometry, st: State, used: seq<bool>, p: int, a: int, q: int, b: int)
    requires Core(g, st, used) && p in st.homes && p in st.desc && q in st.homes && q in st.desc
    requires a in Slots(g, st, p) && b in Slots(g, st, q) && a != b
    ensures a + g.stride <= b || b + g.stride <= a
  {
    SlotBounds(st.desc[p].base, g.stride, g.objs, a);
    SlotBounds(st.desc[q].base, g.stride, g.objs, b);
    if p == q {
      SlotsApart(st.desc[p].base, g.stride, g.objs, a, b);
    } else {
      assert Apart(g, st, p, q);
    }
  }

  /** The live objects of a state keep their words. */
  ghost predicate ObjectsKept(g: Geometry, m: Memory, m': Memory, live: set<int>) {
    forall a, x :: a in live && a <= x < a + g.objSize ==> Load(m', x) == Load(m, x)
  }

  lemma KeptByObjectWrite(g: Geometry, st: State, used: seq<bool>, p: int, obj: int, m: Memory, old_live: set<int>)
    requires Core(g, st, used) && p in st.homes && p in st.desc && obj in Slots(g, st, p)
    requires old_live <= st.live && obj !in old_live && WritesOnly(st.mem, m, obj, obj + g.stride)
    ensures ObjectsKept(g, st.mem, m, old_live)
  {
    forall a, x | a in old_live && a <= x < a + g.objSize
      ensures Load(m, x) == Load(st.mem, x)
    {
      assert LiveOk(g, st, a);
      var q :| q in st.homes && q in st.desc && a in Slots(g, st, q);
      ObjectsDisjoint(g, st, used, q, a, p, obj);
    }
  }

  lemma KeptByNewSlab(g: Geometry, st: State, used: seq<bool>, base: int, m: Memory)
    requires Core(g, st, used) && WritesOnly(st.mem, m, base, base + g.objs * g.stride)
    requires base % 4096 == 0 && FreeRun(used, Pfn(base), g.pages)
    ensures ObjectsKept(g, st.mem, m, st.live)
  {
    forall a, x | a in st.live && a <= x < a + g.objSize
      ensures Load(m, x) == Load(st.mem, x)
    {
      assert LiveOk(g, st, a);
      var q :| q in st.homes && q in st.desc && a in Slots(g, st, q);
      assert SlabOk(g, st, used, q);
      UsedApartFromFree(used, Pfn(st.desc[q].base), Pfn(base), g.pages);
      SlotBounds(st.desc[q].base, g.stride, g.objs, a);
    }
  }

  /** An address as aligned as the cache asks for, up to a page. */
  predicate Aligned(g: Geometry, a: int)
    requires g.align > 0
  {
    (4096 % g.align == 0 ==> a % g.align == 0) && (g.align % 4096 == 0 ==> a % 4096 == 0)
  }

  /** All live objects are aligned. */
  lemma ObjectsAligned(g: Geometry, st: State, used: seq<bool>, a: int)
    requires Core(g, st, used) && a in st.live
    ensures Aligned(g, a)
  {
    assert LiveOk(g, st, a);
    var p :| p in st.homes && p in st.desc && a in Slots(g, st, p);
    assert SlabOk(g, st, used, p);
    var base := st.desc[p].base;
    if 4096 % g.align == 0 {
      PageAligned(base, g.align);
      SlotAligned(base, g.stride, g.objs, g.align, a);
    }
    if g.align % 4096 == 0 {
      MultipleOfMultiple(g.stride, g.align, 4096);
      SlotAligned(base, g.stride, g.objs, 4096, a);
    }
  }

  lemma MultipleOfMultiple(x: nat, d: nat, e: nat)
    requires e > 0 && d > 0 && d % e == 0 && x % d == 0
    ensures x % e == 0
  {
    var k, l := x / d, d / e;
    assert x == k * l * e;
    MultipleOf(k * l, e);
  }

  // ------------------------------------------------------------------- cache geometry

  /** ALIGN_UP for a power-of-two alignment. */
  function AlignUp(x: nat, align: nat): nat
    requires align > 0
  {
    ((x + align - 1) / align) * align
  }

  lemma AlignUpSpec(x: nat, align: nat)
    requires align > 0
    ensures x <= AlignUp(x, align) < x + align && AlignUp(x, align) % align == 0
    ensures align % 4 == 0 ==> AlignUp(x, align) % 4 == 0
  {
    var q := (x + align - 1) / align;
    assert x + align - 1 == q * align + (x + align - 1) % align;
    MultipleOf(q, align);
    if align % 4 == 0 { MultipleOf4(q, align); }
  }

  /** A power of two from 4 on is a multiple of 4. */
  lemma {:induction false} PowerIsMultiple(k: nat)
    requires Pow2(k) >= 4
    ensures Pow2(k) % 4 == 0
  {
    assert k >= 2 by {
      assert k == 0 ==> Pow2(k) == 1;
      assert k == 1 ==> Pow2(k) == 2;
    }
    assert Pow2(k) == 2 * Pow2(k - 1) == 4 * Pow2(k - 2);
  }

  lemma ObjectsFit(bytes: nat, stride: nat)
    requires stride > 0
    ensures (bytes / stride) * stride <= bytes < (bytes / stride) * stride + stride
  {
    assert bytes == (bytes / stride) * stride + bytes % stride;
  }

  lemma AtLeast(bytes: nat, stride: nat, k: nat)
    requires stride > 0
    ensures bytes / stride >= k <==> bytes >= k * stride
  {
    ObjectsFit(bytes, stride);
    var q := bytes / stride;
    if q >= k { assert k * stride <= q * stride; }
    if q < k { assert (q + 1) * stride <= k * stride; }
  }

  /** (slab_pages * PAGE_SIZE) / stride */
  function ObjectCount(pages: nat, stride: nat): nat
    requires stride > 0
  {
    4096 * pages / stride
  }

  lemma ObjectCountSpec(pages: nat, stride: nat)
    requires stride > 0
    ensures ObjectCount(pages, stride) * stride <= 4096 * pages < ObjectCount(pages, stride) * stride + stride
    ensures ObjectCount(pages, stride) >= 1 <==> 4096 * pages >= stride
    ensures ObjectCount(pages, stride) >= 2 <==> 4096 * pages >= 2 * stride
    ensures ObjectCount(pages, stride) >= 8 <==> 4096 * pages >= 8 * stride
  {
    ObjectsFit(4096 * pages, stride);
    AtLeast(4096 * pages, stride, 1);
    AtLeast(4096 * pages, stride, 2);
    AtLeast(4096 * pages, stride, 8);
  }

  /**
   The size computation of slab_cache_create, for an alignment that is 0 (meaning 8) or a
   power of two: the stride is the least multiple of the alignment that holds an object; at
   most four pages, as few as give eight objects, and as many objects as they hold. The links stand at word
   addresses from alignment 4 on; the lists are only sound for two objects or more, that is
   for a stride of at most two pages.
   */
  method CacheGeometry(objSize: nat, align: nat) returns (g: Geometry)
    requires align == 0 || exists k: nat :: align == Pow2(k)
    requires objSize + align < 0x1_0000_0000
    ensures g.objSize == (if objSize < 4 then 4 else objSize) && g.align == (if align == 0 then 8 else align)
    ensures g.stride % g.align == 0 && g.objSize <= g.stride < g.objSize + g.align
    ensures g.objs * g.stride <= 4096 * g.pages < g.objs * g.stride + g.stride
    ensures g.objs >= 1 && g.stride % 4 == 0 <==> Sound(g)
    ensures align == 0 || align >= 4 ==> g.stride % 4 == 0
    ensures g.objs >= 2 <==> g.stride <= 8192
    ensures g.objs >= 1 <==> g.stride <= 16384
    ensures 1 <= g.pages <= 4 && (g.objs >= 8 || g.pages == 4)
    ensures forall n :: 1 <= n < g.pages ==> 4096 * n < 8 * g.stride
  {
    var size := if objSize < 4 then 4 else objSize;
    var a := if align == 0 then 8 else align;
    if align >= 4 {
      ghost var k: nat :| align == Pow2(k);
      PowerIsMultiple(k);
    }
    AlignUpSpec(size, a);
    var stride := AlignUp(size, a);
    var pages := SlabPages(stride);
    var objs := ObjectCount(pages, stride);
    ObjectCountSpec(pages, stride);
    g := Geometry(size, a, stride, objs, pages);
  }

  /** The while loop of slab_cache_create. */
  method SlabPages(stride: nat) returns (pages: nat)
    requires stride > 0
    ensures 1 <= pages <= 4 && (4096 * pages >= 8 * stride || pages == 4)
    ensures forall n :: 1 <= n < pages ==> 4096 * n < 8 * stride
  {
    pages := 1;
    var enough := EightFit(pages, stride);
    while !enough && pages < 4
      invariant 1 <= pages <= 4 && (enough <==> 4096 * pages >= 8 * stride)
      invariant forall n :: 1 <= n < pages ==> 4096 * n < 8 * stride
      decreases 4 - pages
    {
      pages := pages + 1;
      enough := EightFit(pages, stride);
    }
  }

  /** The loop condition: the run holds at least eight objects. */
  method EightFit(pages: nat, stride: nat) returns (enough: bool)
    requires stride > 0
    ensures enough <==> 4096 * pages >= 8 * stride
  {
    ObjectCountSpec(pages, stride);
    enough := ObjectCount(pages, stride) >= 8;
  }

  // ------------------------------------------------------------------------ the cache

  class SlabCache {
    const g: Geometry
    const pmm: Allocator
    var desc: map<int, Desc>
    var mem: Memory
    var partial: int
    var full: int
    var empty: int
    var allocCount: nat
    var freeCount: nat
    ghost var partials: seq<int>
    ghost var fulls: seq<int>
    ghost var empties: seq<int>
    ghost var homes: map<int, Home>
    ghost var chains: map<int, seq<int>>
    ghost var live: set<int>  // the objects handed out and not yet returned

    /** slab_cache_create, after the geometry: a cache without slabs. */
    constructor (geometry: Geometry, p: Allocator, memory: Memory)
      requires Sound(geometry) && p.Valid()
      ensures Valid() && live == {} && g == geometry && pmm == p
    {
      g, pmm, desc, mem := geometry, p, map[], memory;
      partial, full, empty, allocCount, freeCount := 0, 0, 0, 0, 0;
      partials, fulls, empties, homes, chains, live := [], [], [], map[], map[], {};
      new;
      forall h | h != Loose
        ensures ListOk(Now(), h)
      {
      }
    }

    ghost function Now(): State
      reads this
    {
      State(desc, mem, partial, full, empty, partials, fulls, empties, homes, chains, live)
    }

    ghost predicate Valid()
      reads this, pmm, pmm.bitmap
    {
      pmm.Valid() && Inv(g, Now(), pmm.used)
    }

    /** Wiping the object. */
    method ZeroObject(obj: int)
      requires g.objSize >= 0
      modifies this`mem
      ensures WritesOnly(old(mem), mem, obj, obj + g.objSize)
      ensures Wiped(mem, obj, g.objSize)
      ensures var n := g.objSize;
              n % 4 > 0 ==> Load(mem, obj + n - n % 4) == ClearLow(Load(old(mem), obj + n - n % 4), n % 4)
    {
      var i, whole := 0, g.objSize - g.objSize % 4;
      while i < whole
        invariant 0 <= i <= whole && i % 4 == 0
        invariant WritesOnly(old(mem), mem, obj, obj + i) && Zeroes(mem, obj, i)
      {
        mem := mem[obj + i := 0];
        i := i + 4;
      }
      if whole < g.objSize {
        ClearLowIsZero(Load(mem, obj + whole), g.objSize - whole);
        mem := mem[obj + whole := ClearLow(Load(mem, obj + whole), g.objSize - whole)];
      }
    }

    /** The loop of slab_new that chains the slots of a run together. */
    method ChainSlots(base: int)
      requires Sound(g)
      modifies this`mem
      ensures WritesOnly(old(mem), mem, base, base + g.objs * g.stride)
      ensures forall k ::
                0 <= k < g.objs
                ==> Load(mem, base + k * g.stride) == (if k + 1 < g.objs then base + (k + 1) * g.stride else 0)
    {
      var i := 0;
      while i < g.objs - 1
        invariant 0 <= i <= g.objs - 1
        invariant WritesOnly(old(mem), mem, base, base + i * g.stride)
        invariant forall k :: 0 <= k < i ==> Load(mem, base + k * g.stride) == base + (k + 1) * g.stride
      {
        SlotOrder(g.stride, i);
        mem := mem[base + i * g.stride := base + (i + 1) * g.stride];
        i := i + 1;
      }
      SlotOrder(g.stride, g.objs - 1);
      mem := mem[base + (g.objs - 1) * g.stride := 0];
    }

    /** slab_new; 0 when the heap gives no descriptor (slab == 0) or the page allocator no run. */
    method NewSlab(slab: int) returns (p: int)
      requires Valid() && slab !in homes
      modifies this, pmm, pmm.bitmap
      ensures pmm.Valid() && Core(g, Now(), pmm.used) && allocCount == old(allocCount)
      ensures p == 0 <==> slab == 0 || NoRunBelow(old(pmm.used), pmm.totalPages, g.pages)
      ensures p == 0 ==> Now() == old(Now()) && pmm.used == old(pmm.used)
      ensures p != 0
              ==> p == slab && Installed(old(Now()), p)
                  && LowestRunTaken(old(pmm.used), pmm.used, Pfn(desc[p].base), g.pages)
                  && forall q :: q != p ==> Filed(g, Now(), q)
      ensures ObjectsKept(g, old(mem), mem, old(live))
    {
      if slab == 0 { return 0; }
      ghost var used := pmm.used;
      var phys := pmm.AllocPages(g.pages);
      if phys == 0 { return 0; }
      AddressOfFrame(phys);
      Install(slab, phys, used);
      return slab;
    }

    /** From state st a loose slab p with all slots free was added. */
    ghost predicate Installed(st: State, p: int)
      reads this
    {
      p in desc && desc[p].base % 4096 == 0
      && Now() == WithNewSlab(g, st, p, desc[p].base, mem, SlotSeq(desc[p].base, g.stride, g.objs))
    }

    /** The descriptor and the free chain of slab_new, over a run that was just allocated. */
    method Install(slab: int, phys: int, ghost used: seq<bool>)
      requires pmm.Valid() && Core(g, Now(), used) && (forall q :: Filed(g, Now(), q)) && slab != 0 && slab !in homes
      requires phys % 4096 == 0 && FreeRun(used, Pfn(phys), g.pages)
               && pmm.used == Fill(used, Pfn(phys), Pfn(phys) + g.pages, true)
      modifies this
      ensures Core(g, Now(), pmm.used) && Installed(old(Now()), slab) && desc[slab].base == phys
              && allocCount == old(allocCount)
      ensures (forall q :: q != slab ==> Filed(g, Now(), q)) && ObjectsKept(g, old(mem), mem, old(live))
    {
      ghost var st := Now();
      ChainSlots(phys);
      NewSlabInstalled(g, st, used, pmm.used, slab, phys, mem);
      desc := desc[slab := Desc(phys, g.objs, g.objs, phys, 0)];
      homes, chains := homes[slab := Loose], chains[slab := SlotSeq(phys, g.stride, g.objs)];
    }

    /** The cache allocates from the empty list although its slabs hold a single object. */
    ghost predicate SingleFromEmpty()
      reads this
    {
      g.objs == 1 && partials == [] && empties != []
    }

    /** The slab's first free slot leaves its chain. */
    method PopSlot(slab: int) returns (obj: int)
      requires slab in desc && slab in chains && chains[slab] != []
      modifies this
      ensures obj == old(desc)[slab].freelist && Now() == Pop(old(Now()), slab)
      ensures allocCount == old(allocCount) + 1 && freeCount == old(freeCount)
    {
      obj := desc[slab].freelist;
      desc := desc[slab := desc[slab].(freelist := Load(mem, obj), freeCount := desc[slab].freeCount - 1)];
      chains, live := chains[slab := chains[slab][1..]], live + {obj};
      allocCount := allocCount + 1;
    }

    /** The slab becomes the head of list h. */
    method Link(h: Home, slab: int)
      requires slab in desc && h != Loose
      modifies this
      ensures Now() == Push(old(Now()), h, slab) && freeCount == old(freeCount) && allocCount == old(allocCount)
    {
      match h {
        case Full =>
          desc := desc[slab := desc[slab].(next := full)];
          full, fulls := slab, [slab] + fulls;
        case Partial =>
          desc := desc[slab := desc[slab].(next := partial)];
          partial, partials := slab, [slab] + partials;
        case Empty =>
          desc := desc[slab := desc[slab].(next := empty)];
          empty, empties := slab, [slab] + empties;
      }
      homes := homes[slab := h];
    }

    /** Taking slab, at position i of list h, out of the list: its predecessor's link, or the head, skips it. */
    method Detach(h: Home, slab: int, prev: int, ghost i: nat)
      requires h != Loose && i < |ListOf(Now(), h)| && slab == ListOf(Now(), h)[i] && slab in desc
      requires (i == 0 <==> prev == 0) && (i > 0 ==> prev == ListOf(Now(), h)[i - 1] && prev in desc)
      modifies this
      ensures Now() == Unlink(old(Now()), h, i) && freeCount == old(freeCount) && allocCount == old(allocCount)
    {
      ghost var l := ListOf(Now(), h);
      var next := desc[slab].next;
      if prev != 0 {
        desc := desc[prev := desc[prev].(next := next)];
      }
      Shorten(h, if prev == 0 then next else HeadNow(h), l[..i] + l[i + 1..]);
      homes := homes[slab := Loose];
    }

    function HeadNow(h: Home): int
      reads this
    {
      match h case Full => full case Partial => partial case Empty => empty case Loose => 0
    }

    /** Head and contents of list h. */
    method Shorten(h: Home, head: int, ghost rest: seq<int>)
      requires h != Loose
      modifies this
      ensures Now() == WithList(old(Now()), h, head, rest) && freeCount == old(freeCount)
              && allocCount == old(allocCount)
    {
      match h {
        case Full => full, fulls := head, rest;
        case Partial => partial, partials := head, rest;
        case Empty => empty, empties := head, rest;
      }
    }

    /** Popping the first free slot and moving the slab to the list it now belongs to. */
    method TakeSlot(slab: int) returns (obj: int)
      requires pmm.Valid() && Core(g, Now(), pmm.used) && Chosen(g, Now(), slab)
      requires slab in chains && chains[slab] != []
      requires (partials != [] ==> partials[0] in desc) && (empties != [] ==> empties[0] in desc)
      modifies this
      ensures obj == old(desc)[slab].freelist
      ensures Now() == AllocResult(g, old(Now()), slab)
      ensures allocCount == old(allocCount) + 1 && freeCount == old(freeCount)
    {
      HeadsExist(g, Now(), pmm.used, Partial);
      HeadsExist(g, Now(), pmm.used, Empty);
      assert SlabOk(g, Now(), pmm.used, slab);
      obj := PopSlot(slab);
      if desc[slab].freeCount == 0 {
        if partial == slab { Detach(Partial, slab, 0, 0); }
        Link(Full, slab);
      } else if desc[slab].freeCount == desc[slab].total - 1 {
        if empty == slab { Detach(Empty, slab, 0, 0); }
        Link(Partial, slab);
      }
    }

    /** From state st the first free slot of the slab was taken, and nothing but the object's words changed besides. */
    ghost predicate AllocatedFrom(st: State, slab: int, obj: int)
      reads this
    {
      slab in st.desc && slab in st.chains && st.chains[slab] != [] && obj == st.desc[slab].freelist
      && (st.partials != [] ==> st.partials[0] in st.desc) && (st.empties != [] ==> st.empties[0] in st.desc)
      && Now() == AllocResult(g, st, slab).(mem := mem) && WritesOnly(st.mem, mem, obj, obj + g.objSize)
    }

    /**
     slab_alloc, given the address kmalloc would return for a new descriptor. It never hands
     out a live object, wipes the new one and leaves the words of the others alone. The cache
     stays valid, except when it takes a single-object slab from the empty list.
     */
    method Alloc(descPtr: int) returns (obj: int)
      requires Valid() && descPtr !in homes
      modifies this, pmm, pmm.bitmap
      ensures obj == 0 <==> old(partial) == 0 && old(empty) == 0
                            && (descPtr == 0 || NoRunBelow(old(pmm.used), pmm.totalPages, g.pages))
      ensures obj == 0 ==> Valid() && Now() == old(Now()) && pmm.used == old(pmm.used)
      ensures obj != 0 ==> obj !in old(live) && live == old(live) + {obj} && Wiped(mem, obj, g.objSize)
      ensures Aligned(g, obj)
      ensures obj != 0 && old(partial) != 0
              ==> AllocatedFrom(old(Now()), old(partial), obj) && pmm.used == old(pmm.used)
      ensures obj != 0 && old(partial) == 0 && old(empty) != 0
              ==> AllocatedFrom(old(Now()), old(empty), obj) && pmm.used == old(pmm.used)
      ensures obj != 0 && old(partial) == 0 && old(empty) == 0
              ==> LowestRunTaken(old(pmm.used), pmm.used, Pfn(obj), g.pages) && obj % 4096 == 0
      ensures allocCount == old(allocCount) + (if obj != 0 then 1 else 0)
      ensures ObjectsKept(g, old(mem), mem, old(live))
      ensures !old(SingleFromEmpty()) ==> Valid()
      ensures old(SingleFromEmpty()) ==> full == empty == old(empty) && !Valid()
    {
      HeadsExist(g, Now(), pmm.used, Partial);
      HeadsExist(g, Now(), pmm.used, Empty);
      ghost var before := Now();
      var slab := partial;
      if slab == 0 { slab := empty; }
      if slab == 0 {
        slab := NewSlab(descPtr);
        if slab == 0 { return 0; }
      }
      obj := AllocFrom(slab);
      assert ObjectsKept(g, before.mem, mem, before.live);
    }

    /** The rest of slab_alloc: take a slot from the chosen slab and wipe the object. */
    method AllocFrom(slab: int) returns (obj: int)
      requires pmm.Valid() && Core(g, Now(), pmm.used) && Chosen(g, Now(), slab)
      requires forall q :: q != slab || homes[slab] != Loose ==> Filed(g, Now(), q)
      modifies this
      ensures obj != 0 && obj !in old(live) && live == old(live) + {obj} && Wiped(mem, obj, g.objSize)
      ensures Aligned(g, obj)
      ensures AllocatedFrom(old(Now()), slab, obj) && allocCount == old(allocCount) + 1
      ensures ObjectsKept(g, old(mem), mem, old(live))
      ensures !(g.objs == 1 && old(homes)[slab] == Empty) ==> Valid()
      ensures g.objs == 1 && old(homes)[slab] == Empty ==> full == empty == slab && !Valid()
    {
      ghost var st, used := Now(), pmm.used;
      HeadsExist(g, st, used, Partial);
      HeadsExist(g, st, used, Empty);
      assert SlabOk(g, st, used, slab);
      if homes[slab] != Loose { assert Filed(g, st, slab); }
      PopCore(g, st, used, slab);
      ObjectsAligned(g, Pop(st, slab), used, st.desc[slab].freelist);
      SlotBounds(st.desc[slab].base, g.stride, g.objs, st.desc[slab].freelist);
      obj := TakeSlot(slab);
      ZeroObject(obj);
      KeptByObjectWrite(g, Pop(st, slab), used, slab, obj, mem, st.live);
      WipeKeepsInv(g, st, used, slab, mem);
    }

    /** Does the run of slab p contain address obj? */
    predicate Contains(p: int, obj: int)
      requires p in desc
      reads this
    {
      desc[p].base <= obj < desc[p].base + 4096 * g.pages
    }

    /** The inner loop of slab_free: the first slab of a list, from its head on, whose run contains obj. */
    method Find(head: int, obj: int, ghost h: Home) returns (found: int, prev: int, ghost i: nat)
      requires Valid() && h != Loose && head == HeadOf(Now(), h)
      ensures found == 0 ==>
              forall k ::
                0 <= k < |ListOf(Now(), h)|
                ==> ListOf(Now(), h)[k] in desc && !Contains(ListOf(Now(), h)[k], obj)
      ensures found != 0
              ==> found in desc && Contains(found, obj) && i < |ListOf(Now(), h)|
                  && found == ListOf(Now(), h)[i]
      ensures found != 0
              ==> prev == (if i == 0 then 0 else ListOf(Now(), h)[i - 1])
                  && (i > 0 ==> prev != 0 && prev in desc)
    {
      ghost var l := ListOf(Now(), h);
      MembersExist(g, Now(), pmm.used, h);
      var s := head;
      prev, i := 0, 0;
      while s != 0
        invariant i <= |l| && s == (if i < |l| then l[i] else 0) && prev == (if i == 0 then 0 else l[i - 1])
        invariant (s == 0 <==> i == |l|) && (i > 0 ==> prev != 0 && prev in desc)
        invariant forall k :: 0 <= k < i ==> l[k] in desc && !Contains(l[k], obj)
        decreases |l| - i
      {
        assert LinkAt(Now(), h, i);
        if Contains(s, obj) { return s, prev, i; }
        prev, s, i := s, desc[s].next, i + 1;
      }
      found := 0;
    }

    /** obj goes to the front of the slab's chain. */
    method GiveSlot(slab: int, obj: int)
      requires slab in desc && slab in chains
      modifies this
      ensures Now() == Give(old(Now()), slab, obj) && freeCount == old(freeCount) + 1
    {
      mem := mem[obj := desc[slab].freelist];
      desc := desc[slab := desc[slab].(freelist := obj, freeCount := desc[slab].freeCount + 1)];
      chains, live := chains[slab := [obj] + chains[slab]], live - {obj};
      freeCount := freeCount + 1;
    }

    /** The rest of slab_free, for the slab found at position i of list h. */
    method FreeTo(h: Home, slab: int, prev: int, ghost i: nat, obj: int)
      requires Valid() && h != Loose && i < |ListOf(Now(), h)| && slab == ListOf(Now(), h)[i] && slab in desc
      requires (i == 0 <==> prev == 0) && (i > 0 ==> prev == ListOf(Now(), h)[i - 1] && prev in desc)
      requires obj in live && obj in Slots(g, Now(), slab)
      modifies this
      ensures slab in old(chains) && Now() == FreeResult(g, old(Now()), h, i, obj)
      ensures freeCount == old(freeCount) + 1
    {
      assert LinkAt(Now(), h, i) && SlabOk(g, Now(), pmm.used, slab);
      Detach(h, slab, prev, i);
      GiveSlot(slab, obj);
      Link(if desc[slab].freeCount == desc[slab].total then Empty else Partial, slab);
    }

    /** The search of slab_free, through the full, the partial and the empty list. */
    method FindOwner(obj: int) returns (found: int, h: Home, prev: int, ghost i: nat)
      requires Valid()
      ensures h != Loose
      ensures found == 0 <==> forall p :: p in homes ==> p in desc && !Contains(p, obj)
      ensures found != 0
              ==> found in desc && found in homes && Contains(found, obj) && i < |ListOf(Now(), h)|
                  && found == ListOf(Now(), h)[i]
      ensures found != 0 ==> (i == 0 <==> prev == 0) && (i > 0 ==> prev == ListOf(Now(), h)[i - 1] && prev in desc)
    {
      h := Full;
      found, prev, i := Find(full, obj, Full);
      if found == 0 {
        h := Partial;
        found, prev, i := Find(partial, obj, Partial);
      }
      if found == 0 {
        h := Empty;
        found, prev, i := Find(empty, obj, Empty);
      }
      if found == 0 {
        forall p | p in homes
          ensures p in desc && !Contains(p, obj)
        {
          assert SlabOk(g, Now(), pmm.used, p) && Filed(g, Now(), p);
        }
      } else {
        assert LinkAt(Now(), h, i);
      }
    }

    /** From state st the object went back to the slab at position i of list h, which holds its slot. */
    ghost predicate FreedFrom(st: State, h: Home, i: nat, obj: int)
      reads this
    {
      i < |ListOf(st, h)| && ListOf(st, h)[i] in st.desc && ListOf(st, h)[i] in st.chains
      && (i > 0 ==> ListOf(st, h)[i - 1] in st.desc)
      && obj in Slots(g, st, ListOf(st, h)[i]) && Now() == FreeResult(g, st, h, i, obj)
    }

    /**
     slab_free. A null object is ignored, a live one becomes available again and all other
     objects stay live with their words, an address in no slab of the cache is the panic.
     */
    method Free(obj: int) returns (known: bool)
      requires Valid()
      requires obj in live || obj == 0 || forall p :: p in homes ==> p in desc && !Contains(p, obj)
      modifies this
      ensures Valid()
      ensures known <==> obj == 0 || obj in old(live)
      ensures live == old(live) - {obj}
      ensures !known || obj == 0 ==> Now() == old(Now())
      ensures obj in old(live) ==> exists h, i :: FreedFrom(old(Now()), h, i, obj)
      ensures ObjectsKept(g, old(mem), mem, live)
      ensures freeCount == old(freeCount) + (if obj in old(live) then 1 else 0)
    {
      ghost var st, used, owner := Now(), pmm.used, 0;
      if obj in live { owner := OwnerOf(g, st, used, obj); }
      if obj == 0 { return true; }
      var found, h, prev, i := FindOwner(obj);
      if found == 0 { return false; }
      OwnerUnique(g, st, used, owner, found, obj);
      FreeKeepsInv(g, st, used, h, i, obj);
      KeptByObjectWrite(g, st, used, found, obj, mem[obj := desc[found].freelist], live - {obj});
      FreeTo(h, found, prev, i, obj);
      assert FreedFrom(st, h, i, obj);
      known := true;
    }
  }

  lemma SlotOrder(stride: nat, i: nat)
    ensures (i + 1) * stride == i * stride + stride
    ensures forall k :: 0 <= k < i ==> k * stride + stride <= i * stride
  {
    forall k | 0 <= k < i
      ensures k * stride + stride <= i * stride
    {
      MultiplesApart(stride, k, i);
    }
  }

  lemma MultiplesApart(s: nat, a: nat, b: nat)
    requires a < b
    ensures a * s + s <= b * s
  {
    assert b * s == a * s + s + (b - a - 1) * s;
  }
}
