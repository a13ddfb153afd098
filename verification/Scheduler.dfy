/**
 The scheduler of kernal/sched/scheduler.c: selection through a 256-bit priority bitmap,
 and the life cycle of the 64 task slots and their stacks.

 An operation that turns interrupts off is one atomic step. alloc_task leaves them on: as one
 step it stands for a creation that nothing interrupts, as at boot before interrupts are
 enabled; module TaskCreation takes it store by store. A yield is a timer tick.
 */
module Scheduler {
  import opened Words
  import opened PhysAlloc

  datatype TaskState = Unused | Ready | Running | Blocked | Zombie | Sleeping

  /**
   A task slot. The flag resumes says that the task was switched out inside the timer
   handler, so that switching to it continues there.
   */
  datatype Task = Task(
    id: u32, state: TaskState, stack: u32, priority: u8, base: u8,
    wait: u32, run: u32, sleepUntil: u32, zombie: u32, exitCode: int, resumes: bool)

  // ------------------------------------------------------------------ the priority bitmap

  ghost predicate BitAt(bm: seq<u32>, p: nat)
    requires |bm| == 8 && p < 256
  {
    Bit(bm[p / 32], p % 32)
  }

  function SetPrio(bm: seq<u32>, p: u8): (r: seq<u32>)
    requires |bm| == 8
    ensures |r| == 8
  {
    Word32(bm[p / 32], p % 32);
    bm[p / 32 := SetBit(bm[p / 32], p % 32)]
  }

  function ClearPrio(bm: seq<u32>, p: u8): (r: seq<u32>)
    requires |bm| == 8
    ensures |r| == 8
  {
    Word32(bm[p / 32], p % 32);
    bm[p / 32 := ClearBit(bm[p / 32], p % 32)]
  }

  lemma SetAndCleared(bm: seq<u32>)
    requires |bm| == 8 && forall w :: 0 <= w < 8 ==> bm[w] == 0
    ensures ClearPrio(SetPrio(bm, 0), 0) == bm
  {
    assert SetBit(0, 0) == 1 && ClearBit(1, 0) == 0;
  }

  lemma Word32(w: u32, i: nat)
    requires i < 32
    ensures 0 <= SetBit(w, i) < 0x1_0000_0000 && 0 <= ClearBit(w, i) < 0x1_0000_0000
    ensures forall j: nat :: Bit(SetBit(w, i), j) == (j == i || Bit(w, j))
    ensures forall j: nat :: Bit(ClearBit(w, i), j) == (j != i && Bit(w, j))
  {
    Pow2At32();
    SetBitSpec(w, i, 32);
    ClearBitSpec(w, i);
  }

  lemma PrioSpec(bm: seq<u32>, p: u8, q: nat)
    requires |bm| == 8 && q < 256
    ensures BitAt(SetPrio(bm, p), q) <==> q == p || BitAt(bm, q)
    ensures BitAt(ClearPrio(bm, p), q) <==> q != p && BitAt(bm, q)
  {
    Word32(bm[p / 32], p % 32);
  }

  /** 31 - __builtin_clz(w) */
  function HighBit(w: nat): nat {
    if w < 2 then 0 else 1 + HighBit(w / 2)
  }

  lemma {:induction false} HighBitSpec(w: nat, k: nat)
    requires 0 < w < Pow2(k)
    ensures HighBit(w) < k && Bit(w, HighBit(w)) && forall j :: j > HighBit(w) ==> !Bit(w, j)
  {
    if w < 2 {
      forall j | j > 0
        ensures !Bit(w, j)
      {
        ZeroHasNoBits(j - 1);
      }
    } else {
      HighBitSpec(w / 2, k - 1);
      forall j | j > HighBit(w)
        ensures !Bit(w, j)
      {
        assert Bit(w, j) == Bit(w / 2, j - 1);
      }
    }
  }

  /** The linear scan: the highest set priority up to p, or 255. */
  ghost function TopFrom(bm: seq<u32>, p: nat): (r: nat)
    requires |bm| == 8 && p < 256
    ensures r < 256
    decreases |bm| + p
  {
    if BitAt(bm, p) then p else if p == 0 then 255 else TopFrom(bm, p - 1)
  }

  ghost function Top(bm: seq<u32>): (r: nat)
    requires |bm| == 8
    ensures r < 256
  {
    TopFrom(bm, 255)
  }

  lemma {:induction false} TopFromSpec(bm: seq<u32>, p: nat)
    requires |bm| == 8 && p < 256
    ensures forall q :: TopFrom(bm, p) < q <= p ==> !BitAt(bm, q)
    ensures (BitAt(bm, TopFrom(bm, p)) && TopFrom(bm, p) <= p)
            || (TopFrom(bm, p) == 255 && forall q :: 0 <= q <= p ==> !BitAt(bm, q))
  {
    if !BitAt(bm, p) && p > 0 { TopFromSpec(bm, p - 1); }
  }

  ghost predicate ClearFrom(bm: seq<u32>, p: nat)
    requires |bm| == 8
  {
    forall q :: p <= q < 256 ==> !BitAt(bm, q)
  }

  lemma TopInWord(bm: seq<u32>, w: nat)
    requires |bm| == 8 && w < 8 && bm[w] != 0 && ClearFrom(bm, 32 * (w + 1))
    ensures HighBit(bm[w]) < 32 && w * 32 + HighBit(bm[w]) == Top(bm)
  {
    Pow2At32();
    HighBitSpec(bm[w], 32);
    var top := w * 32 + HighBit(bm[w]);
    BitPlace(w, HighBit(bm[w]));
    assert BitAt(bm, top);
    forall p | top < p < 256
      ensures !BitAt(bm, p)
    {
      if p < 32 * (w + 1) { BitPlace(w, p - 32 * w); }
    }
    TopFromSpec(bm, 255);
  }

  lemma BitPlace(w: nat, b: nat)
    requires b < 32
    ensures (w * 32 + b) / 32 == w && (w * 32 + b) % 32 == b
  {
  }

  lemma EmptyWord(bm: seq<u32>, w: nat)
    requires |bm| == 8 && w < 8 && bm[w] == 0 && ClearFrom(bm, 32 * (w + 1))
    ensures ClearFrom(bm, 32 * w)
  {
    forall p | 32 * w <= p < 32 * (w + 1)
      ensures !BitAt(bm, p)
    {
      ZeroHasNoBits(p % 32);
    }
  }

  /** The word-wise search finds what the linear scan finds. */
  method BitmapTop(bm: array<u32>) returns (top: u8)
    requires bm.Length == 8
    ensures top == Top(bm[..])
  {
    var w := 7;
    while w >= 0
      invariant -1 <= w <= 7 && ClearFrom(bm[..], 32 * (w + 1))
    {
      if bm[w] != 0 {
        TopInWord(bm[..], w);
        return w * 32 + HighBit(bm[w]);
      }
      EmptyWord(bm[..], w);
      w := w - 1;
    }
    TopFromSpec(bm[..], 255);
    top := 255;
  }

  // ---------------------------------------------------------------------------- selection

  predicate Matches(t: Task, top: nat) {
    t.state == Ready && t.priority == top
  }

  /** (start + i) % SCHED_MAX_TASKS */
  function Slot(start: int, i: int): (k: int)
    ensures 0 <= k < 64
  {
    (start + i) % 64
  }

  /** The loop of sched_pick_next from its i-th round on; -1 stands for NULL. */
  function PickFrom(tasks: seq<Task>, top: nat, start: int, i: nat): (r: int)
    requires |tasks| == 64 && -1 <= start < 64 && i >= 1
    ensures -1 <= r < 64
    decreases |tasks| + 1 - i
  {
    if i > 64 then -1
    else if Matches(tasks[Slot(start, i)], top) then Slot(start, i)
    else PickFrom(tasks, top, start, i + 1)
  }

  ghost function Pick(tasks: seq<Task>, bm: seq<u32>, current: int): (r: int)
    requires |tasks| == 64 && |bm| == 8 && -1 <= current < 64
    ensures -1 <= r < 64
  {
    if Top(bm) == 255 then -1 else PickFrom(tasks, Top(bm), current, 1)
  }

  /** r is the first match after start, in cyclic order. */
  ghost predicate FirstAfter(tasks: seq<Task>, top: nat, start: int, r: int)
    requires |tasks| == 64 && -1 <= start < 64
  {
    exists i :: 1 <= i <= 64 && r == Slot(start, i) && Matches(tasks[Slot(start, i)], top)
                && forall j :: 1 <= j < i ==> !Matches(tasks[Slot(start, j)], top)
  }

  lemma {:induction false} PickFromSpec(tasks: seq<Task>, top: nat, start: int, i: nat)
    requires |tasks| == 64 && -1 <= start < 64 && 1 <= i <= 65
    requires forall j :: 1 <= j < i ==> !Matches(tasks[Slot(start, j)], top)
    ensures var r := PickFrom(tasks, top, start, i);
            if r == -1 then forall k :: 0 <= k < 64 ==> !Matches(tasks[k], top) else FirstAfter(tasks, top, start, r)
    decreases |tasks| + 1 - i
  {
    if i > 64 {
      forall k | 0 <= k < 64
        ensures !Matches(tasks[k], top)
      {
        var j := if k > start then k - start else k + 64 - start;
        assert Slot(start, j) == k;
      }
    } else if !Matches(tasks[Slot(start, i)], top) {
      PickFromSpec(tasks, top, start, i + 1);
    }
  }

  /** bitmap_rebuild has just been run. */
  ghost predicate Rebuilt(tasks: seq<Task>, bm: seq<u32>) {
    |tasks| == 64 && |bm| == 8
    && forall p :: 0 <= p < 256 ==> (BitAt(bm, p) <==> exists k :: 0 <= k < 64 && Matches(tasks[k], p))
  }

  /** The same for the first n slots and one priority, while bitmap_rebuild is running. */
  ghost predicate MarkedUpTo(tasks: seq<Task>, bm: seq<u32>, n: nat, p: nat)
    requires n <= |tasks| && |bm| == 8 && p < 256
  {
    BitAt(bm, p) <==> exists k :: 0 <= k < n && Matches(tasks[k], p)
  }

  lemma MarkOneMore(tasks: seq<Task>, bm: seq<u32>, n: nat, p: nat)
    requires n < |tasks| && |bm| == 8 && p < 256 && MarkedUpTo(tasks, bm, n, p)
    ensures MarkedUpTo(tasks, if tasks[n].state == Ready then SetPrio(bm, tasks[n].priority) else bm, n + 1, p)
  {
    PrioSpec(bm, tasks[n].priority, p);
    if exists k :: 0 <= k < n && Matches(tasks[k], p) {
      var k :| 0 <= k < n && Matches(tasks[k], p);
      assert 0 <= k < n + 1 && Matches(tasks[k], p);
    } else if Matches(tasks[n], p) {
      assert 0 <= n < n + 1 && Matches(tasks[n], p);
    }
  }

  /**
   Selection over a rebuilt bitmap is the linear scan for the best task: it gives NULL exactly
   when no task is ready, or one is ready at priority 255, which bitmap_top cannot tell from
   an empty bitmap; otherwise the first task after the current one, in cyclic order, among
   the ready tasks of the highest priority.
   */
  lemma PickIsLinearScan(tasks: seq<Task>, bm: seq<u32>, current: int)
    requires Rebuilt(tasks, bm) && -1 <= current < 64
    ensures var r := Pick(tasks, bm, current);
            (r == -1 <==> (forall k :: 0 <= k < 64 ==> tasks[k].state != Ready)
                          || exists k :: 0 <= k < 64 && Matches(tasks[k], 255))
            && (r != -1 ==> FirstAfter(tasks, tasks[r].priority, current, r)
                            && forall k :: 0 <= k < 64 && tasks[k].state == Ready
                                           ==> tasks[k].priority <= tasks[r].priority)
  {
    TopFromSpec(bm, 255);
    var top := Top(bm);
    if top != 255 { PickFromSpec(tasks, top, current, 1); }
    forall k | 0 <= k < 64 && tasks[k].state == Ready
      ensures BitAt(bm, tasks[k].priority) && tasks[k].priority <= top
    {
      assert Matches(tasks[k], tasks[k].priority);
    }
  }

  /** A ready real-time task alone is never picked. */
  lemma RealTimeIsNotPicked(t: Task, other: Task)
    requires t.state == Ready && t.priority == 255 && other.state == Unused
    ensures var tasks := seq(64, i => if i == 1 then t else other);
            forall bm, current :: -1 <= current < 64 && Rebuilt(tasks, bm) ==> Pick(tasks, bm, current) == -1
  {
    var tasks := seq(64, i => if i == 1 then t else other);
    forall bm, current | -1 <= current < 64 && Rebuilt(tasks, bm)
      ensures Pick(tasks, bm, current) == -1
    {
      assert Matches(tasks[1], 255);
      PickIsLinearScan(tasks, bm, current);
    }
  }

  // ---------------------------------------------------------------------------- round robin

  /** How many slots after a slot b comes, in cyclic order: 1 to 64. */
  function Distance(a: int, b: int): int {
    (b - a - 1) % 64 + 1
  }

  ghost function PickTimes(tasks: seq<Task>, top: nat, start: int, n: nat): (r: int)
    requires |tasks| == 64 && -1 <= start < 64
    ensures -1 <= r < 64
    decreases n
  {
    if n == 0 then start else PickTimes(tasks, top, PickFrom(tasks, top, start, 1), n - 1)
  }

  lemma DistanceSteps(a: int, i: int, b: int)
    requires -1 <= a < 64 && i >= 1 && 0 <= b < 64
    ensures 1 <= Distance(a, b) <= 64 && Slot(a, Distance(a, b)) == b
    ensures i < Distance(a, b) ==> Distance(Slot(a, i), b) == Distance(a, b) - i
  {
  }

  /** Picking again and again over the same ready set reaches every task of the top priority, within 64 picks. */
  lemma {:induction false} RoundRobin(tasks: seq<Task>, top: nat, start: int, k: int) returns (n: nat)
    requires |tasks| == 64 && -1 <= start < 64 && 0 <= k < 64 && Matches(tasks[k], top)
    ensures 1 <= n <= Distance(start, k) <= 64 && PickTimes(tasks, top, start, n) == k
    decreases Distance(start, k)
  {
    var r, i := NextMatch(tasks, top, start, k);
    if r == k {
      n := 1;
      PickOnce(tasks, top, start, 0);
    } else {
      DistanceSteps(start, i, k);
      var m := RoundRobin(tasks, top, r, k);
      n := m + 1;
      PickOnce(tasks, top, start, m);
    }
  }

  lemma PickOnce(tasks: seq<Task>, top: nat, start: int, m: nat)
    requires |tasks| == 64 && -1 <= start < 64
    ensures PickTimes(tasks, top, start, m + 1) == PickTimes(tasks, top, PickFrom(tasks, top, start, 1), m)
    ensures PickTimes(tasks, top, start, 1) == PickFrom(tasks, top, start, 1)
  {
  }

  /** One pick never jumps over a match. */
  lemma NextMatch(tasks: seq<Task>, top: nat, start: int, k: int) returns (r: int, i: int)
    requires |tasks| == 64 && -1 <= start < 64 && 0 <= k < 64 && Matches(tasks[k], top)
    ensures 0 <= r < 64 && r == PickFrom(tasks, top, start, 1) == Slot(start, i)
    ensures 1 <= i <= Distance(start, k) <= 64 && (r == k || i < Distance(start, k))
  {
    DistanceSteps(start, 1, k);
    PickFromSpec(tasks, top, start, 1);
    r := PickFrom(tasks, top, start, 1);
    i :| 1 <= i <= 64 && r == Slot(start, i) && forall j :: 1 <= j < i ==> !Matches(tasks[Slot(start, j)], top);
    assert Matches(tasks[Slot(start, Distance(start, k))], top);
  }

  // ------------------------------------------------------------------------ aging, demotion

  function Aged(t: Task): Task {
    var w := Wrap(t.wait + 1);
    if t.state != Ready then t
    else if w >= 500 && t.priority < 254 then t.(wait := 0, priority := t.priority + 1)
    else t.(wait := w)
  }

  ghost function AgedTimes(t: Task, n: nat): Task
    decreases n
  {
    if n == 0 then t else AgedTimes(Aged(t), n - 1)
  }

  /**
   No starvation by priority: a task that stays ready gains a level with every 500 agings, up
   to 254, and none besides.
   */
  lemma {:induction false} AgingPromotes(t: Task, n: nat)
    requires t.state == Ready && t.wait + n < 0x1_0000_0000 && t.priority < 255
    ensures var r := AgedTimes(t, n);
            r == t.(wait := r.wait, priority := r.priority)
            && r.priority == Min(254, t.priority + (Min(t.wait, 499) + n) / 500)
    decreases n
  {
    if n > 0 { AgingPromotes(Aged(t), n - 1); }
  }

  /** The task part of mlfq_demote: one level down, but not below 1, and real-time tasks never. */
  function Demoted(t: Task): Task {
    if t.priority <= 0 || t.base >= 255 || t.priority <= 1 then t else t.(priority := t.priority - 1)
  }

  // ---------------------------------------------------------------- the scheduler's state

  /** The task table, the bitmap, the current slot (-1 for NULL), the clock, the next id, and the frames in use. */
  datatype State = State(tasks: seq<Task>, bitmap: seq<u32>, current: int, uptime: u32, nextId: u32, used: seq<bool>)

  ghost predicate Shape(s: State) {
    |s.tasks| == 64 && |s.bitmap| == 8 && -1 <= s.current < 64
  }

  /** The three loops over the task table. */
  datatype Pass = WakeUp | Age | Reap

  function WakeSlot(s: State, i: nat): State
    requires i < |s.tasks| && |s.bitmap| == 8
  {
    var t := s.tasks[i];
    if t.state == Sleeping && s.uptime >= t.sleepUntil then
      s.(tasks := s.tasks[i := t.(state := Ready)], bitmap := SetPrio(s.bitmap, t.priority))
    else s
  }

  function AgeSlot(s: State, i: nat): State
    requires i < |s.tasks| && |s.bitmap| == 8
  {
    var t := s.tasks[i];
    var r := Aged(t);
    s.(tasks := s.tasks[i := r],
       bitmap := if r.priority != t.priority then SetPrio(ClearPrio(s.bitmap, t.priority), r.priority) else s.bitmap)
  }

  ghost function ReapSlot(s: State, i: nat): State
    requires i < |s.tasks|
  {
    var t := s.tasks[i];
    var z := Wrap(t.zombie + 1);
    if t.state != Zombie then s
    else if z >= 200 && t.stack != 0 then
      s.(tasks := s.tasks[i := t.(zombie := z, stack := 0, state := Unused)],
         used := Fill(s.used, Pfn(t.stack), Pfn(t.stack) + 2, false))
    else s.(tasks := s.tasks[i := t.(zombie := z)])
  }

  ghost function SlotStep(pass: Pass, s: State, i: nat): (r: State)
    requires Shape(s) && i < 64
    ensures Shape(r) && r.current == s.current && r.uptime == s.uptime && r.nextId == s.nextId && |r.used| == |s.used|
    ensures forall k :: 0 <= k < 64 && k != i ==> r.tasks[k] == s.tasks[k]
  {
    match pass case WakeUp => WakeSlot(s, i) case Age => AgeSlot(s, i) case Reap => ReapSlot(s, i)
  }

  ghost function Sweep(pass: Pass, s: State, i: nat): (r: State)
    requires Shape(s) && i <= 64
    ensures Shape(r) && r.current == s.current && r.uptime == s.uptime && r.nextId == s.nextId && |r.used| == |s.used|
    decreases |s.tasks| - i
  {
    if i == 64 then s else Sweep(pass, SlotStep(pass, s, i), i + 1)
  }

  ghost function Housekeeping(s: State): State
    requires Shape(s)
  {
    if s.uptime % 50 == 0 then Sweep(Reap, Sweep(Age, s, 0), 0) else s
  }

  /** mlfq_demote of the current task. */
  function Demotion(s: State): State
    requires |s.tasks| == 64 && |s.bitmap| == 8 && 0 <= s.current < 64
  {
    var t := s.tasks[s.current];
    var d := Demoted(t);
    if d == t then s
    else
      var bm := ClearPrio(s.bitmap, t.priority);
      s.(tasks := s.tasks[s.current := d], bitmap := if t.state == Ready then SetPrio(bm, d.priority) else bm)
  }

  /** The quantum has expired: the current task gives up its slice. */
  function GiveUp(s: State): State
    requires |s.tasks| == 64 && |s.bitmap| == 8 && 0 <= s.current < 64
  {
    var s1 := Demotion(s);
    var t := s1.tasks[s.current].(run := 0);
    if t.state == Running then
      s1.(tasks := s1.tasks[s.current := t.(state := Ready)], bitmap := SetPrio(s1.bitmap, t.priority))
    else
      s1.(tasks := s1.tasks[s.current := t])
  }

  /** Going on with the current task: nothing better was found. */
  function GoOn(s: State): State
    requires |s.tasks| == 64 && |s.bitmap| == 8 && 0 <= s.current < 64
  {
    var t := s.tasks[s.current];
    s.(tasks := s.tasks[s.current := t.(state := Running)], bitmap := ClearPrio(s.bitmap, t.priority))
  }

  /** Switching to slot next. */
  function SwitchTo(s: State, next: nat): State
    requires |s.tasks| == 64 && |s.bitmap| == 8 && 0 <= s.current < 64 && next < 64
  {
    var ts := s.tasks[s.current := s.tasks[s.current].(resumes := true)];
    s.(tasks := ts[next := ts[next].(state := Running, wait := 0)],
        bitmap := ClearPrio(s.bitmap, s.tasks[next].priority), current := next)
  }

  /** The pick, and what follows from it. */
  ghost function Dispatch(s: State): State
    requires Shape(s) && s.current >= 0
  {
    var next := Pick(s.tasks, s.bitmap, s.current);
    if next == -1 || next == s.current then GoOn(s)
    else if s.tasks[next].resumes then Housekeeping(SwitchTo(s, next))
    else SwitchTo(s, next)
  }

  ghost function Reschedule(s: State): State
    requires Shape(s) && s.current >= 0
  {
    Dispatch(GiveUp(s))
  }

  /** One more tick on the account of the current task. */
  function Charge(s: State): State
    requires |s.tasks| == 64 && 0 <= s.current < 64
  {
    var t := s.tasks[s.current];
    s.(tasks := s.tasks[s.current := t.(run := Wrap(t.run + 1))])
  }

  ghost predicate SliceEnds(s: State)
    requires Shape(s) && s.current >= 0
  {
    Charge(s).tasks[s.current].run >= 10
  }

  /** The rest of timer_handler for a current task. */
  ghost function Slice(s: State): State
    requires Shape(s) && s.current >= 0
  {
    if SliceEnds(s) then Reschedule(Charge(s)) else Housekeeping(Charge(s))
  }

  /** The clock advances and wakes the sleepers. */
  ghost function Clocked(s: State): (r: State)
    requires Shape(s)
    ensures Shape(r) && r.current == s.current
  {
    Sweep(WakeUp, s.(uptime := Wrap(s.uptime + 1)), 0)
  }

  /** timer_handler */
  ghost function Tick(s: State): State
    requires Shape(s)
  {
    if s.current == -1 then Clocked(s) else Slice(Clocked(s))
  }

  // --------------------------------------------------------------------- the other entries

  ghost predicate FirstUnused(tasks: seq<Task>, i: int) {
    (i == -1 && forall k :: 0 <= k < |tasks| ==> tasks[k].state != Unused)
    || (0 <= i < |tasks| && tasks[i].state == Unused && forall k :: 0 <= k < i ==> tasks[k].state != Unused)
  }

  function NewTask(id: u32, stack: u32, prio: u8): Task {
    Task(id, Ready, stack, prio, prio, 0, 0, 0, 0, 0, false)
  }

  /** alloc_task: slot i, or -1 and no change when no slot is unused or no two frames are free. */
  ghost predicate Created(s: State, prio: u8, i: int, s': State)
    requires Shape(s)
  {
    if i == -1 then s' == s && (FirstUnused(s.tasks, -1) || NoRunBelow(s.used, |s.used|, 2))
    else
      FirstUnused(s.tasks, i) && |s'.tasks| == 64
      && var stack := s'.tasks[i].stack;
         stack % 4096 == 0 && LowestRunTaken(s.used, s'.used, Pfn(stack), 2)
         && s' == s.(tasks := s.tasks[i := NewTask(s.nextId, stack, prio)], bitmap := SetPrio(s.bitmap, prio),
                     nextId := Wrap(s.nextId + 1), used := s'.used)
  }

  /** task_set_priority; -1 stands for NULL. */
  function PrioritySet(s: State, i: int, prio: u8): State
    requires |s.tasks| == 64 && |s.bitmap| == 8 && -1 <= i < 64
  {
    if i == -1 then s
    else
      var t := s.tasks[i];
      s.(tasks := s.tasks[i := t.(priority := prio, base := prio)],
         bitmap := if t.state == Ready then SetPrio(ClearPrio(s.bitmap, t.priority), prio) else s.bitmap)
  }

  /** The locked part of task_exit. */
  function Exited(s: State, code: int): State
    requires |s.tasks| == 64 && -1 <= s.current < 64
  {
    if s.current == -1 then s
    else s.(tasks := s.tasks[s.current := s.tasks[s.current].(exitCode := code, state := Zombie, zombie := 0)])
  }

  /** The locked part of task_sleep. */
  function Slept(s: State, ms: u32): State
    requires |s.tasks| == 64 && |s.bitmap| == 8 && -1 <= s.current < 64
  {
    if s.current == -1 || ms == 0 then s
    else
      var t := s.tasks[s.current];
      s.(tasks := s.tasks[s.current := t.(sleepUntil := Wrap(s.uptime + ms), state := Sleeping)],
          bitmap := ClearPrio(s.bitmap, t.priority))
  }

  /** task_wake */
  function Woken(s: State, i: int): State
    requires |s.tasks| == 64 && |s.bitmap| == 8 && -1 <= i < 64
  {
    if i == -1 || (s.tasks[i].state != Sleeping && s.tasks[i].state != Blocked) then s
    else
      var t := s.tasks[i];
      s.(tasks := s.tasks[i := t.(sleepUntil := 0, state := Ready)], bitmap := SetPrio(s.bitmap, t.priority))
  }

  /** What sched_init leaves: the idle task in slot 0 is running, no other slot is in use, and nobody is ready. */
  ghost predicate Booted(s: State) {
    Shape(s) && s.current == 0 && s.tasks[0].state == Running && s.tasks[0].priority == 0 && !s.tasks[0].resumes
    && (forall k :: 1 <= k < 64 ==> s.tasks[k].state == Unused) && forall w :: 0 <= w < 8 ==> s.bitmap[w] == 0
  }

  // --------------------------------------------------------------- the life-cycle invariant

  /** The two frames of a stack exist and are allocated. */
  ghost predicate StackOk(used: seq<bool>, stack: u32) {
    stack % 4096 == 0 && 1 <= Pfn(stack) && Pfn(stack) + 2 <= |used| && used[Pfn(stack)] && used[Pfn(stack) + 1]
  }

  /**
   A slot: only the current one is running; real-time by priority and by base go together;
   unused means without a stack; the current one is in use, and too young to be reaped.
   */
  ghost predicate SlotOk(s: State, i: nat)
    requires i < |s.tasks|
  {
    var t := s.tasks[i];
    (t.state == Running ==> i == s.current)
    && (t.priority == 255 <==> t.base == 255)
    && (t.state == Unused <==> t.stack == 0)
    && (t.stack != 0 ==> StackOk(s.used, t.stack))
    && (if i == s.current then t.state != Unused && t.run < 10 && (t.state == Zombie ==> t.zombie <= t.run)
        else t.run == 0)
  }

  ghost predicate StacksApart(s: State, i: nat, j: nat)
    requires i < |s.tasks| && j < |s.tasks|
  {
    var a, b := s.tasks[i].stack, s.tasks[j].stack;
    i != j && a != 0 && b != 0 ==> Pfn(a) + 2 <= Pfn(b) || Pfn(b) + 2 <= Pfn(a)
  }

  ghost predicate Inv(s: State) {
    Shape(s) && |s.used| <= 0x10_0000
    && (forall i :: 0 <= i < 64 ==> SlotOk(s, i))
    && (forall i, j :: 0 <= i < 64 && 0 <= j < 64 ==> StacksApart(s, i, j))
  }

  /** What keeps the invariant when no stack changes hands: each slot is in order. */
  lemma SameStacks(s: State, s': State)
    requires Inv(s) && Shape(s') && s'.used == s.used
    requires forall k :: 0 <= k < 64 ==> s'.tasks[k].stack == s.tasks[k].stack
    requires forall k :: 0 <= k < 64 ==> SlotOk(s', k)
    ensures Inv(s')
  {
    forall i, j | 0 <= i < 64 && 0 <= j < 64
      ensures StacksApart(s', i, j)
    {
      assert StacksApart(s, i, j);
    }
  }

  lemma OneSlot(s: State, s': State, i: nat)
    requires Inv(s) && Shape(s') && s'.used == s.used && s'.current == s.current && i < 64
    requires forall k :: 0 <= k < 64 && k != i ==> s'.tasks[k] == s.tasks[k]
    requires s'.tasks[i].stack == s.tasks[i].stack && SlotOk(s', i)
    ensures Inv(s')
  {
    forall k | 0 <= k < 64
      ensures SlotOk(s', k)
    {
      assert SlotOk(s, k);
    }
    SameStacks(s, s');
  }

  /** From slot i on, the reaper finds the current task, if it has exited, younger than its slice. */
  ghost predicate Room(pass: Pass, s: State, i: nat)
    requires Shape(s)
  {
    pass == Reap && s.current >= i && s.tasks[s.current].state == Zombie
    ==> s.tasks[s.current].zombie < s.tasks[s.current].run
  }

  lemma SlotStepKeepsInv(pass: Pass, s: State, i: nat)
    requires Inv(s) && i < 64 && Room(pass, s, i)
    ensures Inv(SlotStep(pass, s, i)) && Room(pass, SlotStep(pass, s, i), i + 1)
    ensures SlotStep(pass, s, i).tasks[i].state == Running ==> s.tasks[i].state == Running
  {
    assert SlotOk(s, i);
    var s' := SlotStep(pass, s, i);
    if s'.tasks[i].stack == s.tasks[i].stack {
      OneSlot(s, s', i);
    } else {
      ReapKeepsInv(s, i);
    }
  }

  /** Reaping frees two frames that were allocated, and no frame of another slot. */
  lemma ReapKeepsInv(s: State, i: nat)
    requires Inv(s) && i < 64 && Room(Reap, s, i) && ReapSlot(s, i).tasks[i].stack != s.tasks[i].stack
    ensures i != s.current && StackOk(s.used, s.tasks[i].stack) && Inv(ReapSlot(s, i))
    ensures forall k ::
              0 <= k < 64 && k != i && s.tasks[k].stack != 0
              ==> StackOk(ReapSlot(s, i).used, s.tasks[k].stack)
  {
    assert SlotOk(s, i);
    var s' := ReapSlot(s, i);
    forall k | 0 <= k < 64
      ensures SlotOk(s', k)
    {
      assert SlotOk(s, k) && StacksApart(s, i, k);
    }
    forall k | 0 <= k < 64 && k != i && s.tasks[k].stack != 0
      ensures StackOk(s'.used, s.tasks[k].stack)
    {
      assert SlotOk(s', k);
    }
    forall j, k | 0 <= j < 64 && 0 <= k < 64
      ensures StacksApart(s', j, k)
    {
      assert StacksApart(s, j, k);
    }
  }

  lemma {:induction false} SweepKeepsInv(pass: Pass, s: State, i: nat)
    requires Inv(s) && i <= 64 && Room(pass, s, i)
    ensures Inv(Sweep(pass, s, i))
    ensures forall k :: 0 <= k < 64 && Sweep(pass, s, i).tasks[k].state == Running ==> s.tasks[k].state == Running
    ensures pass == Age ==>
            forall k ::
              0 <= k < 64
              ==> Sweep(pass, s, i).tasks[k] == if k < i then s.tasks[k] else Aged(s.tasks[k])
    decreases |s.tasks| - i
  {
    if i < 64 {
      SlotStepKeepsInv(pass, s, i);
      SweepKeepsInv(pass, SlotStep(pass, s, i), i + 1);
    }
  }

  lemma HousekeepingKeepsInv(s: State)
    requires Inv(s) && Room(Reap, s, 0)
    ensures Inv(Housekeeping(s)) && Housekeeping(s).current == s.current
    ensures forall k :: 0 <= k < 64 && Housekeeping(s).tasks[k].state == Running ==> s.tasks[k].state == Running
  {
    if s.uptime % 50 == 0 {
      SweepKeepsInv(Age, s, 0);
      SweepKeepsInv(Reap, Sweep(Age, s, 0), 0);
    }
  }

  /** The end of a slice, from the charge on: the current task has given up and is not running. */
  ghost predicate GaveUp(s: State, s': State)
    requires Shape(s) && s.current >= 0
  {
    var c := s.current;
    Shape(s') && s'.current == c && s'.used == s.used
    && (forall k :: 0 <= k < 64 && k != c ==> s'.tasks[k] == s.tasks[k])
    && var t, t' := s.tasks[c], s'.tasks[c];
       t'.stack == t.stack && t'.run == 0 && t'.base == t.base && (t'.priority == 255 <==> t.priority == 255)
       && t'.state == if t.state == Running then Ready else t.state
  }

  lemma GiveUpSpec(s: State)
    requires Shape(s) && s.current >= 0 && (s.tasks[s.current].priority == 255 <==> s.tasks[s.current].base == 255)
    ensures GaveUp(s, GiveUp(Charge(s)))
  {
  }

  lemma GoOnKeepsInv(s: State, s1: State)
    requires Inv(s) && s.current >= 0 && GaveUp(s, s1)
    ensures Inv(GoOn(s1))
  {
    assert SlotOk(s, s.current);
    OneSlot(s, GoOn(s1), s.current);
  }

  lemma SwitchKeepsInv(s: State, s1: State, next: nat)
    requires Inv(s) && s.current >= 0 && GaveUp(s, s1) && next < 64 && next != s.current
             && s1.tasks[next].state == Ready
    ensures Inv(SwitchTo(s1, next)) && Room(Reap, SwitchTo(s1, next), 0)
  {
    var s' := SwitchTo(s1, next);
    forall k | 0 <= k < 64
      ensures SlotOk(s', k)
    {
      assert SlotOk(s, k);
    }
    SameStacks(s, s');
  }

  /** A pick is a ready task of the priority on top of the bitmap, whatever the bitmap says. */
  lemma PickIsReady(tasks: seq<Task>, bm: seq<u32>, current: int)
    requires |tasks| == 64 && |bm| == 8 && -1 <= current < 64
    ensures var r := Pick(tasks, bm, current); r != -1 ==> Matches(tasks[r], Top(bm))
  {
    if Top(bm) != 255 { PickFromSpec(tasks, Top(bm), current, 1); }
  }

  lemma ClockedKeepsInv(s: State)
    requires Inv(s)
    ensures Inv(Clocked(s))
    ensures forall c :: 0 <= c < 64 && s.tasks[c].state != Sleeping ==> Clocked(s).tasks[c] == s.tasks[c]
  {
    var s0 := s.(uptime := Wrap(s.uptime + 1));
    forall k | 0 <= k < 64
      ensures SlotOk(s0, k)
    {
      assert SlotOk(s, k);
    }
    SameStacks(s, s0);
    SweepKeepsInv(WakeUp, s0, 0);
    forall c | 0 <= c < 64 && s.tasks[c].state != Sleeping
      ensures Clocked(s).tasks[c] == s.tasks[c]
    {
      WakeLeaves(s0, 0, c);
    }
  }

  lemma ChargeKeepsInv(s: State)
    requires Inv(s) && s.current >= 0 && !SliceEnds(s)
    ensures Inv(Charge(s)) && Room(Reap, Charge(s), 0)
  {
    assert SlotOk(s, s.current);
    OneSlot(s, Charge(s), s.current);
  }

  lemma TickKeepsInv(s: State)
    requires Inv(s)
    ensures Inv(Tick(s))
  {
    ClockedKeepsInv(s);
    var s1 := Clocked(s);
    if s1.current >= 0 {
      if SliceEnds(s1) {
        RescheduleKeepsInv(s1);
      } else {
        ChargeKeepsInv(s1);
        HousekeepingKeepsInv(Charge(s1));
      }
    }
  }

  lemma RescheduleKeepsInv(s: State)
    requires Inv(s) && s.current >= 0
    ensures Inv(Reschedule(Charge(s)))
  {
    assert SlotOk(s, s.current);
    GiveUpSpec(s);
    var s1 := GiveUp(Charge(s));
    var next := Pick(s1.tasks, s1.bitmap, s1.current);
    PickIsReady(s1.tasks, s1.bitmap, s1.current);
    if next == -1 || next == s1.current {
      GoOnKeepsInv(s, s1);
    } else {
      SwitchKeepsInv(s, s1, next);
      HousekeepingKeepsInv(SwitchTo(s1, next));
    }
  }

  /** Nothing can be picked when the current task gives up. */
  ghost predicate NothingElse(s: State)
    requires Shape(s) && s.current >= 0
  {
    Pick(GiveUp(Charge(s)).tasks, GiveUp(Charge(s)).bitmap, s.current) == -1
  }

  lemma ZombieSlice(s: State)
    requires Inv(s) && s.current >= 0 && s.tasks[s.current].state == Zombie
    ensures Slice(s).tasks[s.current].state == Running <==> SliceEnds(s) && NothingElse(s)
  {
    var c := s.current;
    if !SliceEnds(s) {
      ChargeKeepsInv(s);
      HousekeepingKeepsInv(Charge(s));
    } else {
      assert SlotOk(s, c);
      GiveUpSpec(s);
      var s1 := GiveUp(Charge(s));
      var next := Pick(s1.tasks, s1.bitmap, c);
      PickIsReady(s1.tasks, s1.bitmap, c);
      if next != -1 {
        SwitchKeepsInv(s, s1, next);
        HousekeepingKeepsInv(SwitchTo(s1, next));
      }
    }
  }

  /** An exited task that is still current runs again exactly when its slice ends and nothing can be picked. */
  lemma ZombieRunsAgainIff(s: State)
    requires Inv(s) && s.current >= 0 && s.tasks[s.current].state == Zombie
    ensures Tick(s).tasks[s.current].state == Running <==> SliceEnds(Clocked(s)) && NothingElse(Clocked(s))
  {
    ClockedKeepsInv(s);
    ZombieSlice(Clocked(s));
  }

  /** Waking passes over a task that is not asleep. */
  lemma {:induction false} WakeLeaves(s: State, i: nat, c: nat)
    requires Shape(s) && i <= 64 && c < 64 && s.tasks[c].state != Sleeping
    ensures Sweep(WakeUp, s, i).tasks[c] == s.tasks[c]
    decreases |s.tasks| - i
  {
    if i < 64 { WakeLeaves(SlotStep(WakeUp, s, i), i + 1, c); }
  }

  /** An unused slot gets a task with a stack that was free. */
  lemma FilledKeepsInv(s: State, i: nat, s': State)
    requires Inv(s) && i < 64 && s.tasks[i].state == Unused && Shape(s') && s'.current == s.current
    requires forall k :: 0 <= k < 64 && k != i ==> s'.tasks[k] == s.tasks[k]
    requires var t := s'.tasks[i];
             t.state != Unused && t.state != Running && t.run == 0 && (t.priority == 255 <==> t.base == 255)
             && t.stack % 4096 == 0 && LowestRunTaken(s.used, s'.used, Pfn(t.stack), 2)
    ensures Inv(s') && i != s.current
    ensures forall k :: 0 <= k < 64 && s.tasks[k].stack != 0 ==> StackOk(s'.used, s.tasks[k].stack)
  {
    assert SlotOk(s, i);
    var p := Pfn(s'.tasks[i].stack);
    assert FreeRun(s.used, p, 2);
    forall k | 0 <= k < 64
      ensures SlotOk(s', k)
      ensures k != i && s.tasks[k].stack != 0
              ==> StackOk(s'.used, s.tasks[k].stack)
                  && (p + 2 <= Pfn(s.tasks[k].stack) || Pfn(s.tasks[k].stack) + 2 <= p)
    {
      assert SlotOk(s, k);
      StackApartFromFree(s.used, s.tasks[k].stack, p);
    }
    forall j, k | 0 <= j < 64 && 0 <= k < 64
      ensures StacksApart(s', j, k)
    {
      assert StacksApart(s, j, k);
    }
  }

  lemma CreatedKeepsInv(s: State, prio: u8, i: int, s': State)
    requires Inv(s) && Created(s, prio, i, s')
    ensures Inv(s')
    ensures i != -1
            ==> i != s.current
                && forall k :: 0 <= k < 64 && s.tasks[k].stack != 0 ==> StackOk(s'.used, s.tasks[k].stack)
  {
    if i != -1 { FilledKeepsInv(s, i, s'); }
  }

  lemma StackApartFromFree(used: seq<bool>, stack: u32, p: int)
    requires FreeRun(used, p, 2)
    ensures StackOk(used, stack) ==> p + 2 <= Pfn(stack) || Pfn(stack) + 2 <= p
  {
    assert !used[p] && !used[p + 1];
  }

  // ------------------------------------------------------------------ every run of the system

  /** One entry of the scheduler; Elsewhere is any use of the page allocator by others. */
  datatype Action =
    | TimerTick | Create(prio: u8) | SetPriority(slot: int, prio: u8) | Exit(code: int)
    | Sleep(ms: u32) | Wake(slot: int) | Elsewhere

  ghost predicate Step(s: State, a: Action, s': State)
    requires Shape(s)
  {
    match a
    case TimerTick => s' == Tick(s)
    case Create(prio) => exists i :: Created(s, prio, i, s')
    case SetPriority(i, prio) => -1 <= i < 64 && s' == PrioritySet(s, i, prio)
    case Exit(code) => s' == Exited(s, code)
    case Sleep(ms) => s' == Slept(s, ms)
    case Wake(i) => -1 <= i < 64 && s' == Woken(s, i)
    case Elsewhere =>
      s' == s.(used := s'.used) && |s'.used| == |s.used|
      && forall k :: 0 <= k < 64 && StackOk(s.used, s.tasks[k].stack) ==> StackOk(s'.used, s.tasks[k].stack)
  }

  lemma PrioritySetKeepsInv(s: State, i: int, prio: u8)
    requires Inv(s) && -1 <= i < 64
    ensures Inv(PrioritySet(s, i, prio))
  {
    if i != -1 {
      assert SlotOk(s, i);
      OneSlot(s, PrioritySet(s, i, prio), i);
    }
  }

  lemma ExitedKeepsInv(s: State, code: int)
    requires Inv(s)
    ensures Inv(Exited(s, code))
  {
    if s.current != -1 {
      assert SlotOk(s, s.current);
      OneSlot(s, Exited(s, code), s.current);
    }
  }

  lemma SleptKeepsInv(s: State, ms: u32)
    requires Inv(s)
    ensures Inv(Slept(s, ms))
  {
    if s.current != -1 {
      assert SlotOk(s, s.current);
      OneSlot(s, Slept(s, ms), s.current);
    }
  }

  lemma WokenKeepsInv(s: State, i: int)
    requires Inv(s) && -1 <= i < 64
    ensures Inv(Woken(s, i))
  {
    if i != -1 {
      assert SlotOk(s, i);
      OneSlot(s, Woken(s, i), i);
    }
  }

  /** Others use the page allocator, and leave the stacks alone. */
  lemma ElsewhereKeepsInv(s: State, s': State)
    requires Inv(s) && Step(s, Elsewhere, s')
    ensures Inv(s')
  {
    forall k | 0 <= k < 64
      ensures SlotOk(s', k)
    {
      assert SlotOk(s, k);
    }
    forall i, j | 0 <= i < 64 && 0 <= j < 64
      ensures StacksApart(s', i, j)
    {
      assert StacksApart(s, i, j);
    }
  }

  lemma StepKeepsInv(s: State, a: Action, s': State)
    requires Inv(s) && Step(s, a, s')
    ensures Inv(s')
  {
    match a
    case TimerTick => TickKeepsInv(s);
    case Create(prio) =>
      var i :| Created(s, prio, i, s');
      CreatedKeepsInv(s, prio, i, s');
    case SetPriority(i, prio) => PrioritySetKeepsInv(s, i, prio);
    case Exit(code) => ExitedKeepsInv(s, code);
    case Sleep(ms) => SleptKeepsInv(s, ms);
    case Wake(i) => WokenKeepsInv(s, i);
    case Elsewhere => ElsewhereKeepsInv(s, s');
  }

  ghost predicate IsRun(states: seq<State>, actions: seq<Action>) {
    |states| == |actions| + 1 && Inv(states[0])
    && forall i :: 0 <= i < |actions| ==> Shape(states[i]) && Step(states[i], actions[i], states[i + 1])
  }

  lemma {:induction false} StatesKeepInv(states: seq<State>, actions: seq<Action>, n: nat)
    requires IsRun(states, actions) && n < |states|
    ensures Inv(states[n])
  {
    if n > 0 {
      StatesKeepInv(states, actions, n - 1);
      StepKeepsInv(states[n - 1], actions[n - 1], states[n]);
    }
  }

  /**
   In every state of every run: only the current slot can be running, and it is in use; a
   slot is unused exactly when it has no stack; stacks are allocated and disjoint; real-time
   by priority and by base go together.
   */
  lemma LifeCycle(states: seq<State>, actions: seq<Action>, n: nat)
    requires IsRun(states, actions) && n < |states|
    ensures var s := states[n];
            Shape(s)
            && (s.current >= 0 ==> s.tasks[s.current].state != Unused)
            && (forall i :: 0 <= i < 64 ==>
                  (s.tasks[i].state == Running ==> i == s.current)
                  && (s.tasks[i].state == Unused <==> s.tasks[i].stack == 0)
                  && (s.tasks[i].priority == 255 <==> s.tasks[i].base == 255)
                  && (s.tasks[i].stack != 0 ==> StackOk(s.used, s.tasks[i].stack)))
            && forall i, j :: 0 <= i < 64 && 0 <= j < 64 ==> StacksApart(s, i, j)
  {
    StatesKeepInv(states, actions, n);
    var s := states[n];
    if s.current >= 0 { assert SlotOk(s, s.current); }
    forall i | 0 <= i < 64
      ensures (s.tasks[i].state == Running ==> i == s.current)
              && (s.tasks[i].state == Unused <==> s.tasks[i].stack == 0)
              && (s.tasks[i].priority == 255 <==> s.tasks[i].base == 255)
              && (s.tasks[i].stack != 0 ==> StackOk(s.used, s.tasks[i].stack))
    {
      assert SlotOk(s, i);
    }
  }

  // ------------------------------------------------------------------- the code in place

  class TaskScheduler {
    const tasks: array<Task>
    const bitmap: array<u32>
    const pmm: Allocator
    var current: int
    var uptime: u32
    var nextId: u32

    /** The arrays have their sizes and are not the allocator's. */
    ghost predicate Wf()
      reads this, pmm, pmm.bitmap
    {
      tasks.Length == 64 && bitmap.Length == 8 && -1 <= current < 64 && pmm.Valid() && bitmap != pmm.bitmap
    }

    ghost function Now(): State
      reads this, tasks, bitmap, pmm
    {
      State(tasks[..], bitmap[..], current, uptime, nextId, pmm.used)
    }

    ghost predicate Valid()
      reads this, tasks, bitmap, pmm, pmm.bitmap
    {
      Wf() && Inv(Now())
    }

    /** The zeroed tables at the start of sched_init. */
    constructor (p: Allocator)
      requires p.Valid()
      ensures Valid() && pmm == p && fresh(tasks) && fresh(bitmap) && current == -1 && nextId == 1 && uptime == 0
      ensures forall w :: 0 <= w < 8 ==> bitmap[w] == 0
      ensures forall k :: 0 <= k < 64 ==> tasks[k].state == Unused
    {
      tasks := new Task[64](_ => Task(0, Unused, 0, 0, 0, 0, 0, 0, 0, 0, false));
      bitmap := new u32[8](_ => 0);
      pmm, current, uptime, nextId := p, -1, 0, 1;
      new;
      forall k | 0 <= k < 64
        ensures SlotOk(Now(), k)
      {
      }
    }

    method SetReady(p: u8)
      requires bitmap.Length == 8
      modifies bitmap
      ensures bitmap[..] == SetPrio(old(bitmap[..]), p)
    {
      Word32(bitmap[p / 32], p % 32);
      bitmap[p / 32] := SetBit(bitmap[p / 32], p % 32);
    }

    method ClearReady(p: u8)
      requires bitmap.Length == 8
      modifies bitmap
      ensures bitmap[..] == ClearPrio(old(bitmap[..]), p)
    {
      Word32(bitmap[p / 32], p % 32);
      bitmap[p / 32] := ClearBit(bitmap[p / 32], p % 32);
    }

    /** bitmap_rebuild */
    method Rebuild()
      requires tasks.Length == 64 && bitmap.Length == 8
      modifies bitmap
      ensures Rebuilt(tasks[..], bitmap[..])
    {
      var w := 0;
      while w < 8
        invariant 0 <= w <= 8 && forall v :: 0 <= v < w ==> bitmap[v] == 0
      {
        bitmap[w] := 0;
        w := w + 1;
      }
      forall p | 0 <= p < 256
        ensures !BitAt(bitmap[..], p)
      {
        ZeroHasNoBits(p % 32);
      }
      ghost var ts := tasks[..];
      var i := 0;
      while i < 64
        invariant 0 <= i <= 64 && forall p :: 0 <= p < 256 ==> MarkedUpTo(ts, bitmap[..], i, p)
      {
        ghost var bm, next := bitmap[..], i + 1;
        if tasks[i].state == Ready { SetReady(tasks[i].priority); }
        forall p | 0 <= p < 256
          ensures MarkedUpTo(ts, bitmap[..], next, p)
        {
          assert MarkedUpTo(ts, bm, i, p);
          MarkOneMore(ts, bm, i, p);
        }
        i := i + 1;
      }
      forall p | 0 <= p < 256
        ensures BitAt(bitmap[..], p) <==> exists k :: 0 <= k < 64 && Matches(ts[k], p)
      {
        assert MarkedUpTo(ts, bitmap[..], 64, p);
      }
    }

    method WakeSleepers()
      requires Wf()
      modifies tasks, bitmap
      ensures Now() == Sweep(WakeUp, old(Now()), 0)
    {
      var i := 0;
      while i < 64
        invariant 0 <= i <= 64 && Wf() && Sweep(WakeUp, Now(), i) == Sweep(WakeUp, old(Now()), 0)
      {
        WakeOne(i);
        i := i + 1;
      }
    }

    method WakeOne(i: nat)
      requires Wf() && i < 64
      modifies tasks, bitmap
      ensures Now() == WakeSlot(old(Now()), i)
    {
      var t := tasks[i];
      if t.state == Sleeping && uptime >= t.sleepUntil {
        tasks[i] := t.(state := Ready);
        SetReady(t.priority);
      }
    }

    method AgeTasks()
      requires Wf()
      modifies tasks, bitmap
      ensures Now() == Sweep(Age, old(Now()), 0)
    {
      var i := 0;
      while i < 64
        invariant 0 <= i <= 64 && Wf() && Sweep(Age, Now(), i) == Sweep(Age, old(Now()), 0)
      {
        AgeOne(i);
        i := i + 1;
      }
    }

    method AgeOne(i: nat)
      requires Wf() && i < 64
      modifies tasks, bitmap
      ensures Now() == AgeSlot(old(Now()), i)
    {
      ghost var before := tasks[..];
      var t := tasks[i];
      if t.state == Ready {
        var w := Wrap(t.wait + 1);
        if w >= 500 && t.priority < 254 {
          ClearReady(t.priority);
          tasks[i] := t.(priority := t.priority + 1, wait := 0);
          SetReady(t.priority + 1);
        } else {
          tasks[i] := t.(wait := w);
        }
      }
      assert tasks[..] == before[i := Aged(t)];
    }

    /** reap_zombies; the current task, if it has exited, is still too young. */
    method ReapZombies()
      requires Valid() && Room(Reap, Now(), 0)
      modifies tasks, pmm, pmm.bitmap
      ensures Valid() && Now() == Sweep(Reap, old(Now()), 0)
    {
      var i := 0;
      while i < 64
        invariant 0 <= i <= 64 && Valid() && Room(Reap, Now(), i)
        invariant Sweep(Reap, Now(), i) == Sweep(Reap, old(Now()), 0)
      {
        SlotStepKeepsInv(Reap, Now(), i);
        ReapOne(i);
        i := i + 1;
      }
    }

    method ReapOne(i: nat)
      requires Valid() && i < 64
      modifies tasks, pmm, pmm.bitmap
      ensures Wf() && Now() == ReapSlot(old(Now()), i)
    {
      assert SlotOk(Now(), i);
      var t := tasks[i];
      if t.state == Zombie {
        t := t.(zombie := Wrap(t.zombie + 1));
        if t.zombie >= 200 && t.stack != 0 {
          FreeStack(t.stack);
          t := t.(stack := 0, state := Unused);
        }
        tasks[i] := t;
      }
    }

    method FreeStack(stack: u32)
      requires Wf() && StackOk(pmm.used, stack)
      modifies pmm, pmm.bitmap
      ensures Wf() && pmm.used == Fill(old(pmm.used), Pfn(stack), Pfn(stack) + 2, false)
    {
      pmm.FreePages(stack, 2);
      FreedStack(stack, old(pmm.used), pmm.used);
    }

    lemma FreedStack(stack: u32, used: seq<bool>, used': seq<bool>)
      requires StackOk(used, stack) && |used| == |used'| <= 0x10_0000
      requires forall p :: 0 <= p < |used| ==> used'[p] == (used[p] && (p == 0 || !Released(stack, 2, p)))
      ensures used' == Fill(used, Pfn(stack), Pfn(stack) + 2, false)
    {
      forall p | 0 <= p < |used|
        ensures used'[p] == Fill(used, Pfn(stack), Pfn(stack) + 2, false)[p]
      {
        ReleasedIsRange(stack, 2, p);
      }
    }

    /** sched_pick_next; -1 stands for NULL. */
    method PickNext() returns (next: int)
      requires Wf()
      ensures next == Pick(tasks[..], bitmap[..], current)
    {
      var top := BitmapTop(bitmap);
      if top == 255 { return -1; }
      var i := 1;
      while i <= 64
        invariant 1 <= i <= 65 && PickFrom(tasks[..], top, current, i) == PickFrom(tasks[..], top, current, 1)
      {
        var idx := (current + i) % 64;
        if tasks[idx].state == Ready && tasks[idx].priority == top { return idx; }
        i := i + 1;
      }
      next := -1;
    }

    /** mlfq_demote of the current task, and the rest up to the pick. */
    method EndSlice()
      requires Wf() && current >= 0
      modifies tasks, bitmap
      ensures Now() == GiveUp(old(Now()))
    {
      ghost var ts := tasks[..];
      var t := tasks[current];
      if t.priority > 0 && t.base < 255 && t.priority > 1 {
        ClearReady(t.priority);
        t := t.(priority := t.priority - 1);
        if t.state == Ready { SetReady(t.priority); }
      }
      t := t.(run := 0);
      if t.state == Running {
        t := t.(state := Ready);
        SetReady(t.priority);
      }
      tasks[current] := t;
      assert tasks[..] == ts[current := t];
    }

    method KeepRunning()
      requires Wf() && current >= 0
      modifies tasks, bitmap
      ensures Now() == GoOn(old(Now()))
    {
      tasks[current] := tasks[current].(state := Running);
      ClearReady(tasks[current].priority);
    }

    method Switch(next: nat)
      requires Wf() && current >= 0 && next < 64
      modifies this`current, tasks, bitmap
      ensures Wf() && Now() == SwitchTo(old(Now()), next)
    {
      tasks[current] := tasks[current].(resumes := true);
      current := next;
      ClearReady(tasks[next].priority);
      tasks[next] := tasks[next].(state := Running, wait := 0);
    }

    /** Every 50 ms: age and reap. */
    method Periodic()
      requires Valid() && Room(Reap, Now(), 0)
      modifies tasks, bitmap, pmm, pmm.bitmap
      ensures Valid() && Now() == Housekeeping(old(Now()))
    {
      if uptime % 50 == 0 {
        SweepKeepsInv(Age, Now(), 0);
        AgeTasks();
        ReapZombies();
      }
    }

    method ClockTick()
      requires Valid()
      modifies this`uptime, tasks, bitmap
      ensures Valid() && Now() == Clocked(old(Now()))
    {
      ClockedKeepsInv(Now());
      uptime := Wrap(uptime + 1);
      WakeSleepers();
    }

    /** timer_handler, also entered by task_yield. */
    method TimerHandler()
      requires Valid()
      modifies this, tasks, bitmap, pmm, pmm.bitmap
      ensures Valid() && Now() == Tick(old(Now()))
    {
      ClockTick();
      if current != -1 { RunSlice(); }
    }

    /** The accounting and the quantum check of timer_handler. */
    method RunSlice()
      requires Valid() && current >= 0
      modifies this, tasks, bitmap, pmm, pmm.bitmap
      ensures Valid() && Now() == Slice(old(Now()))
    {
      if Wrap(tasks[current].run + 1) < 10 {
        ChargeKeepsInv(Now());
        tasks[current] := tasks[current].(run := Wrap(tasks[current].run + 1));
        Periodic();
      } else {
        RescheduleNow();
      }
    }

    /** The rest of timer_handler when the slice is used up. */
    method RescheduleNow()
      requires Valid() && current >= 0
      modifies this, tasks, bitmap, pmm, pmm.bitmap
      ensures Valid() && Now() == Reschedule(Charge(old(Now())))
    {
      ghost var s := Now();
      assert SlotOk(s, current);
      GiveUpSpec(s);
      ChargeAndGiveUp();
      DispatchNow(s);
    }

    method ChargeAndGiveUp()
      requires Wf() && current >= 0
      modifies tasks, bitmap
      ensures Wf() && Now() == GiveUp(Charge(old(Now())))
    {
      tasks[current] := tasks[current].(run := Wrap(tasks[current].run + 1));
      EndSlice();
    }

    /** From the pick on; s is the state before the slice ended. */
    method DispatchNow(ghost s: State)
      requires Wf() && current >= 0 && Inv(s) && s.current == current && GaveUp(s, Now())
      modifies this`current, tasks, bitmap, pmm, pmm.bitmap
      ensures Valid() && Now() == Dispatch(old(Now()))
    {
      PickIsReady(tasks[..], bitmap[..], current);
      var next := PickNext();
      if next == -1 || next == current {
        GoOnKeepsInv(s, Now());
        KeepRunning();
      } else {
        SwitchNow(s, next);
      }
    }

    /** The switch, and the rest of the handler in which the task that goes on was switched out. */
    method SwitchNow(ghost s: State, next: nat)
      requires Wf() && current >= 0 && Inv(s) && s.current == current && GaveUp(s, Now())
      requires next < 64 && next != current && tasks[next].state == Ready
      modifies this`current, tasks, bitmap, pmm, pmm.bitmap
      ensures Valid()
      ensures var s1 := old(Now());
              Now() == if s1.tasks[next].resumes then Housekeeping(SwitchTo(s1, next)) else SwitchTo(s1, next)
    {
      SwitchKeepsInv(s, Now(), next);
      var resumes := tasks[next].resumes;
      Switch(next);
      if resumes { Periodic(); }
    }

    /** alloc_task, when nothing interrupts it; -1 stands for NULL. */
    method CreateTask(prio: u8) returns (i: int)
      requires Valid()
      modifies this, tasks, bitmap, pmm, pmm.bitmap
      ensures -1 <= i < 64 && Created(old(Now()), prio, i, Now()) && Valid()
      ensures i != -1 ==> tasks[i].state == Ready && tasks[i].priority == tasks[i].base == prio
                          && tasks[i].id == old(nextId) && nextId == Wrap(old(nextId) + 1)
    {
      ghost var s := Now();
      i := FreeSlot();
      if i == -1 { return; }
      var stack := pmm.AllocPages(2);
      if stack == 0 { return -1; }
      FillSlot(i, stack, prio);
      CreatedKeepsInv(s, prio, i, Now());
    }

    /** The stores of alloc_task for slot i. */
    method FillSlot(i: nat, stack: u32, prio: u8)
      requires Wf() && i < 64
      modifies this`nextId, tasks, bitmap
      ensures Now() == old(Now()).(tasks := old(tasks[..])[i := NewTask(old(nextId), stack, prio)],
                                   bitmap := SetPrio(old(bitmap[..]), prio), nextId := Wrap(old(nextId) + 1))
    {
      tasks[i] := NewTask(nextId, stack, prio);
      nextId := Wrap(nextId + 1);
      SetReady(prio);
    }

    method FreeSlot() returns (i: int)
      requires tasks.Length == 64
      ensures -1 <= i < 64 && FirstUnused(tasks[..], i)
    {
      i := 0;
      while i < 64
        invariant 0 <= i <= 64 && forall k :: 0 <= k < i ==> tasks[k].state != Unused
      {
        if tasks[i].state == Unused { return; }
        i := i + 1;
      }
      i := -1;
    }

    /** The rest of sched_init: the idle task, running; false stands for the panic. */
    method Start() returns (ok: bool)
      requires Valid() && current == -1 && forall k :: 0 <= k < 64 ==> tasks[k].state == Unused
      modifies this, tasks, bitmap, pmm, pmm.bitmap
      ensures Valid() && (ok <==> !NoRunBelow(old(pmm.used), pmm.totalPages, 2))
      ensures ok ==> current == 0 && tasks[0].state == Running && tasks[0].priority == 0 && tasks[0].id == old(nextId)
      ensures !ok ==> Now() == old(Now())
      ensures ok && (forall w :: 0 <= w < 8 ==> old(bitmap[w]) == 0)
              ==> Booted(Now()) && uptime == old(uptime) && tasks[0].run == 0
    {
      ghost var bm := bitmap[..];
      assert tasks[..][0].state == Unused;
      var i := CreateTask(0);
      if i == -1 { return false; }
      ghost var s := Now();
      tasks[i] := tasks[i].(state := Running);
      current := i;
      ClearReady(0);
      if forall w :: 0 <= w < 8 ==> bm[w] == 0 { SetAndCleared(bm); }
      forall k | 0 <= k < 64
        ensures SlotOk(Now(), k)
      {
        assert SlotOk(s, k);
      }
      SameStacks(s, Now());
      ok := true;
    }

    method TaskSetPriority(i: int, prio: u8)
      requires Valid() && -1 <= i < 64
      modifies tasks, bitmap
      ensures Valid() && Now() == PrioritySet(old(Now()), i, prio)
    {
      StepKeepsInv(Now(), SetPriority(i, prio), PrioritySet(Now(), i, prio));
      if i == -1 { return; }
      var t := tasks[i];
      if t.state == Ready { ClearReady(t.priority); }
      tasks[i] := t.(priority := prio, base := prio);
      if t.state == Ready { SetReady(prio); }
    }

    method TaskExit(code: int)
      requires Valid()
      modifies tasks
      ensures Valid() && Now() == Exited(old(Now()), code)
    {
      StepKeepsInv(Now(), Exit(code), Exited(Now(), code));
      if current != -1 {
        tasks[current] := tasks[current].(exitCode := code, state := Zombie, zombie := 0);
      }
    }

    method TaskSleep(ms: u32)
      requires Valid()
      modifies tasks, bitmap
      ensures Valid() && Now() == Slept(old(Now()), ms)
    {
      StepKeepsInv(Now(), Sleep(ms), Slept(Now(), ms));
      if current == -1 || ms == 0 { return; }
      tasks[current] := tasks[current].(sleepUntil := Wrap(uptime + ms), state := Sleeping);
      ClearReady(tasks[current].priority);
    }

    method TaskWake(i: int)
      requires Valid() && -1 <= i < 64
      modifies tasks, bitmap
      ensures Valid() && Now() == Woken(old(Now()), i)
    {
      StepKeepsInv(Now(), Wake(i), Woken(Now(), i));
      if i == -1 { return; }
      var t := tasks[i];
      if t.state == Sleeping || t.state == Blocked {
        tasks[i] := t.(sleepUntil := 0, state := Ready);
        SetReady(t.priority);
      }
    }
  }
}
