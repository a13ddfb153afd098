/**
 alloc_task of kernal/sched/scheduler.c store by store. It leaves interrupts on, so ticks,
 other entries of the scheduler and other creators come in between: what holds then, and
 exactly which of these interruptions break it. A call of the page allocator is one step.
 */
module TaskCreation {
  import opened Words
  import opened PhysAlloc
  import opened Scheduler

  /**
   How far a creator is: the slot is found; its stack is allocated; the slot is zeroed; then
   the stores of id and state, priority, base priority, stack, and name and context are done.
   */
  datatype Stage = Found | Paged | Cleared | Queued | Ranked | Based | Stacked | Complete

  datatype Maker = Maker(slot: nat, prio: u8, stack: u32, stage: Stage)

  datatype System = System(s: State, makers: map<nat, Maker>)

  /** A search by creator c, the next store of creator c, or another entry of the scheduler. */
  datatype Move = Find(c: nat, prio: u8) | Go(c: nat) | Entry(a: Action)

  /** The slot is the creator's until the last store to it; the bitmap is still to be set then. */
  ghost predicate Claims(m: Maker) { !m.stage.Complete? }

  ghost predicate Holds(m: Maker) { !m.stage.Found? && !m.stage.Complete? }

  /** The slot reads READY, but stack or context are missing. */
  ghost predicate HalfBuilt(m: Maker) {
    m.stage.Queued? || m.stage.Ranked? || m.stage.Based? || m.stage.Stacked?
  }

  function Zeroed(): Task { Task(0, Unused, 0, 0, 0, 0, 0, 0, 0, 0, false) }

  ghost predicate GoStep(sys: System, c: nat, m: Maker, sys': System)
    requires Shape(sys.s)
  {
    var s, s', t := sys.s, sys'.s, if m.slot < 64 then sys.s.tasks[m.slot] else Zeroed();
    m.slot < 64 &&
    match m.stage
    case Found =>
      (NoRunBelow(s.used, |s.used|, 2) && sys' == System(s, sys.makers - {c}))
      || exists stack: u32 :: stack % 4096 == 0 && LowestRunTaken(s.used, s'.used, Pfn(stack), 2)
                              && sys' == System(s.(used := s'.used),
                                  sys.makers[c := m.(stack := stack, stage := Paged)])
    case Paged => sys' == Stored(sys, c, m, Zeroed(), Cleared)
    case Cleared =>
      sys' == Stored(System(s.(nextId := Wrap(s.nextId + 1)), sys.makers), c, m, t.(id := s.nextId, state := Ready),
          Queued)
    case Queued => sys' == Stored(sys, c, m, t.(priority := m.prio), Ranked)
    case Ranked => sys' == Stored(sys, c, m, t.(base := m.prio), Based)
    case Based => sys' == Stored(sys, c, m, t.(stack := m.stack), Stacked)
    case Stacked => sys' == Stored(sys, c, m, t, Complete)
    case Complete => sys' == System(s.(bitmap := SetPrio(s.bitmap, m.prio)), sys.makers - {c})
  }

  /** A store to the slot, and the creator is one stage further. */
  ghost function Stored(sys: System, c: nat, m: Maker, t: Task, stage: Stage): System
    requires Shape(sys.s) && m.slot < 64
  {
    System(sys.s.(tasks := sys.s.tasks[m.slot := t]), sys.makers[c := m.(stage := stage)])
  }

  /**
   One step of the system. Nobody has a pointer to a task under construction yet, and nobody
   else frees the frames that a creator has allocated.
   */
  ghost predicate SystemStep(sys: System, m: Move, sys': System)
    requires Shape(sys.s)
  {
    match m
    case Find(c, prio) =>
      c !in sys.makers
      && exists i :: FirstUnused(sys.s.tasks, i)
                     && sys' == if i == -1 then sys else System(sys.s, sys.makers[c := Maker(i, prio, 0, Found)])
    case Go(c) => c in sys.makers && GoStep(sys, c, sys.makers[c], sys')
    case Entry(a) =>
      !a.Create? && Step(sys.s, a, sys'.s) && sys'.makers == sys.makers
      && (a.SetPriority? || a.Wake? ==> a.slot !in Held(sys.makers))
      && (a.Elsewhere? ==>
            forall c ::
              c in sys.makers && Holds(sys.makers[c]) && StackOk(sys.s.used, sys.makers[c].stack)
              ==> StackOk(sys'.s.used, sys.makers[c].stack))
  }

  // ------------------------------------------------------------------------- the invariant

  /** Slots whose creators hold a stack and have not finished the task. */
  ghost function Held(makers: map<nat, Maker>): set<int> {
    set c | c in makers && Holds(makers[c]) :: makers[c].slot
  }

  /** The stand-in for a task under construction: it is in use, and has its creator's stack. */
  ghost function Draft(stack: u32): Task {
    Task(0, Blocked, stack, 0, 0, 0, 0, 0, 0, 0, false)
  }

  /** No two creators claim the same slot. */
  ghost predicate Sole(makers: map<nat, Maker>) {
    forall c, d :: c in makers && d in makers && c != d && Claims(makers[c]) && Claims(makers[d])
                   ==> makers[c].slot != makers[d].slot
  }

  /** What the table shows of the slot of a creator. */
  ghost predicate MakerOk(s: State, m: Maker)
    requires Shape(s)
  {
    m.slot < 64
    && (Claims(m) ==> m.slot != s.current)
    && (m.stage.Found? || m.stage.Paged? || m.stage.Cleared? ==> s.tasks[m.slot].state == Unused)
    && (m.stage.Cleared? ==> s.tasks[m.slot] == Zeroed())
    && (HalfBuilt(m) ==> Progress(s.tasks[m.slot], m))
  }

  ghost predicate Progress(t: Task, m: Maker) {
    t.state == Ready && t.run == 0
    && t.stack == (if m.stage.Stacked? then m.stack else 0)
    && (t.priority == 255 <==> !m.stage.Queued? && m.prio == 255)
    && (t.base == 255 <==> (m.stage.Based? || m.stage.Stacked?) && m.prio == 255)
  }

  /** g is the table with drafts where tasks are under construction. */
  ghost predicate Drafted(sys: System, g: State)
    requires Shape(sys.s)
  {
    Shape(g) && g.current == sys.s.current && g.uptime == sys.s.uptime && g.used == sys.s.used
    && (forall i :: 0 <= i < 64 && i !in Held(sys.makers) ==> g.tasks[i] == sys.s.tasks[i])
    && forall c :: c in sys.makers && Holds(sys.makers[c]) && sys.makers[c].slot < 64
                   ==> g.tasks[sys.makers[c].slot] == Draft(sys.makers[c].stack)
  }

  ghost predicate Fits(sys: System, g: State) {
    Shape(sys.s) && Sole(sys.makers) && (forall c :: c in sys.makers ==> MakerOk(sys.s, sys.makers[c]))
    && Drafted(sys, g) && Inv(g)
  }

  /**
   With drafts for the tasks under construction the scheduler's invariant holds, each such
   slot has one creator, and the table shows exactly what that one has stored.
   */
  ghost predicate CreationInv(sys: System) {
    exists g :: Fits(sys, g)
  }

  /** What would break it: a search that finds a claimed slot, or a tick that runs a task without stack or context. */
  ghost predicate Clash(sys: System, m: Move)
    requires Shape(sys.s)
  {
    match m
    case Find(_, _) =>
      exists d :: d in sys.makers && Claims(sys.makers[d]) && FirstUnused(sys.s.tasks, sys.makers[d].slot)
    case Go(_) => false
    case Entry(a) =>
      a.TimerTick?
      && exists d :: d in sys.makers && HalfBuilt(sys.makers[d]) && Tick(sys.s).current == sys.makers[d].slot
  }

  lemma InvIgnores(g: State, g': State)
    requires Inv(g) && Shape(g') && g'.tasks == g.tasks && g'.current == g.current && g'.used == g.used
    ensures Inv(g')
  {
    forall k | 0 <= k < 64
      ensures SlotOk(g', k)
    {
      assert SlotOk(g, k);
    }
    SameStacks(g, g');
  }

  // --------------------------------------------------------- a tick beside the drafted table

  /** The slots in b are under construction: drafts or unused in g, unused or
   ready in s; all else is equal. */
  ghost predicate Beside(s: State, g: State, b: set<int>) {
    Shape(s) && Shape(g) && g.current == s.current && g.uptime == s.uptime && g.used == s.used
    && forall k :: 0 <= k < 64 ==> SlotBeside(s, g, b, k)
  }

  ghost predicate SlotBeside(s: State, g: State, b: set<int>, k: nat)
    requires Shape(s) && Shape(g) && k < 64
  {
    if k in b then
      (g.tasks[k].state == Blocked || g.tasks[k].state == Unused)
          && (s.tasks[k].state == Unused || s.tasks[k].state == Ready)
    else g.tasks[k] == s.tasks[k]
  }

  /** What housekeeping may change in a slot under construction: its priority, up to 254, and its waiting time. */
  ghost predicate Grown(t: Task, t': Task) {
    t'.state == t.state && t'.stack == t.stack && t'.base == t.base && t'.run == t.run
    && (t'.priority == 255 <==> t.priority == 255) && (t.state == Unused ==> t' == t)
  }

  ghost predicate Undisturbed(s: State, g: State, s': State, g': State, b: set<int>)
    requires Shape(s) && Shape(g) && Shape(s') && Shape(g')
  {
    forall k :: 0 <= k < 64 && k in b ==> g'.tasks[k] == g.tasks[k] && Grown(s.tasks[k], s'.tasks[k])
  }

  lemma SlotStepBeside(pass: Pass, s: State, g: State, b: set<int>, i: nat)
    requires Beside(s, g, b) && i < 64
    ensures var s', g' := SlotStep(pass, s, i), SlotStep(pass, g, i); Beside(s', g', b) && Undisturbed(s, g, s', g', b)
  {
    var s', g' := SlotStep(pass, s, i), SlotStep(pass, g, i);
    assert SlotBeside(s, g, b, i);
    forall k | 0 <= k < 64
      ensures SlotBeside(s', g', b, k)
    {
      assert SlotBeside(s, g, b, k);
    }
  }

  lemma {:induction false} SweepBeside(pass: Pass, s: State, g: State, b: set<int>, i: nat)
    requires Beside(s, g, b) && i <= 64
    ensures var s', g' := Sweep(pass, s, i), Sweep(pass, g, i); Beside(s', g', b) && Undisturbed(s, g, s', g', b)
    decreases 64 - i
  {
    if i < 64 {
      SlotStepBeside(pass, s, g, b, i);
      SweepBeside(pass, SlotStep(pass, s, i), SlotStep(pass, g, i), b, i + 1);
    }
  }

  lemma HousekeepingBeside(s: State, g: State, b: set<int>)
    requires Beside(s, g, b)
    ensures var s', g' := Housekeeping(s), Housekeeping(g); Beside(s', g', b) && Undisturbed(s, g, s', g', b)
  {
    if s.uptime % 50 == 0 {
      SweepBeside(Age, s, g, b, 0);
      SweepBeside(Reap, Sweep(Age, s, 0), Sweep(Age, g, 0), b, 0);
    }
  }

  lemma ClockedBeside(s: State, g: State, b: set<int>)
    requires Beside(s, g, b)
    ensures var s', g' := Clocked(s), Clocked(g); Beside(s', g', b) && Undisturbed(s, g, s', g', b)
  {
    var s0, g0 := s.(uptime := Wrap(s.uptime + 1)), g.(uptime := Wrap(g.uptime + 1));
    assert Beside(s0, g0, b) by {
      forall k | 0 <= k < 64
        ensures SlotBeside(s0, g0, b, k)
      {
        assert SlotBeside(s, g, b, k);
      }
    }
    SweepBeside(WakeUp, s0, g0, b, 0);
  }

  /** A change of one slot that is not under construction, the same on both sides. */
  lemma SlotChangeBeside(s: State, g: State, b: set<int>, i: nat, s': State, g': State)
    requires Beside(s, g, b) && i < 64 && i !in b && Shape(s') && Shape(g')
    requires s'.tasks[i] == g'.tasks[i] && s'.current == g'.current && s'.uptime == g'.uptime && s'.used == g'.used
    requires forall k :: 0 <= k < 64 && k != i ==> s'.tasks[k] == s.tasks[k] && g'.tasks[k] == g.tasks[k]
    ensures Beside(s', g', b) && Undisturbed(s, g, s', g', b)
  {
    forall k | 0 <= k < 64
      ensures SlotBeside(s', g', b, k)
    {
      assert SlotBeside(s, g, b, k);
    }
  }

  lemma GiveUpBeside(s: State, g: State, b: set<int>)
    requires Beside(s, g, b) && s.current >= 0 && s.current !in b
    ensures SliceEnds(s) == SliceEnds(g)
    ensures Beside(Charge(s), Charge(g), b) && Undisturbed(s, g, Charge(s), Charge(g), b)
    ensures var s', g' := GiveUp(Charge(s)), GiveUp(Charge(g)); Beside(s', g', b) && Undisturbed(s, g, s', g', b)
  {
    assert SlotBeside(s, g, b, s.current);
    SlotChangeBeside(s, g, b, s.current, Charge(s), Charge(g));
    SlotChangeBeside(s, g, b, s.current, GiveUp(Charge(s)), GiveUp(Charge(g)));
  }

  /** Going on, or switching to a slot that is not under construction. */
  lemma NextBeside(s: State, g: State, b: set<int>, next: nat)
    requires Beside(s, g, b) && s.current >= 0 && s.current !in b && next < 64 && next !in b
    ensures Beside(GoOn(s), GoOn(g), b) && Undisturbed(s, g, GoOn(s), GoOn(g), b)
    ensures Beside(SwitchTo(s, next), SwitchTo(g, next), b)
            && Undisturbed(s, g, SwitchTo(s, next), SwitchTo(g, next), b)
  {
    assert SlotBeside(s, g, b, s.current) && SlotBeside(s, g, b, next);
    SlotChangeBeside(s, g, b, s.current, GoOn(s), GoOn(g));
    var s', g' := SwitchTo(s, next), SwitchTo(g, next);
    forall k | 0 <= k < 64
      ensures SlotBeside(s', g', b, k)
    {
      assert SlotBeside(s, g, b, k);
    }
  }

  lemma UndisturbedOn(s: State, g: State, s1: State, g1: State, s2: State, g2: State, b: set<int>)
    requires Shape(s) && Shape(g) && Shape(s1) && Shape(g1) && Shape(s2) && Shape(g2)
    requires Undisturbed(s, g, s1, g1, b) && Undisturbed(s1, g1, s2, g2, b)
    ensures Undisturbed(s, g, s2, g2, b)
  {
  }

  /** The end of a slice that does not hand the processor to a task under construction. */
  lemma RescheduleBeside(s: State, g: State, b: set<int>) returns (g': State)
    requires Beside(s, g, b) && Inv(g) && s.current >= 0 && s.current !in b && Reschedule(Charge(s)).current !in b
    ensures var s' := Reschedule(Charge(s)); Inv(g') && Beside(s', g', b) && Undisturbed(s, g, s', g', b)
  {
    assert SlotOk(g, g.current);
    GiveUpBeside(s, g, b);
    GiveUpSpec(g);
    var s1, g1 := GiveUp(Charge(s)), GiveUp(Charge(g));
    var next := Pick(s1.tasks, s1.bitmap, s1.current);
    PickIsReady(s1.tasks, s1.bitmap, s1.current);
    if next == -1 || next == s1.current {
      g' := GoOn(g1);
      GoOnKeepsInv(g, g1);
      NextBeside(s1, g1, b, s1.current);
      UndisturbedOn(s, g, s1, g1, GoOn(s1), g', b);
    } else {
      g' := SwitchBeside(s, g, b, s1, g1, next);
    }
  }

  lemma SwitchBeside(s: State, g: State, b: set<int>, s1: State, g1: State, next: nat) returns (g': State)
    requires Beside(s, g, b) && Inv(g) && s.current >= 0 && s.current !in b && GaveUp(g, g1)
    requires Beside(s1, g1, b) && Undisturbed(s, g, s1, g1, b) && s1.current == s.current
    requires next < 64 && next != s.current && next !in b && s1.tasks[next].state == Ready
    ensures var s' := if s1.tasks[next].resumes then Housekeeping(SwitchTo(s1, next)) else SwitchTo(s1, next);
            Inv(g') && Beside(s', g', b) && Undisturbed(s, g, s', g', b)
  {
    assert SlotBeside(s1, g1, b, next);
    var s2, g2 := SwitchTo(s1, next), SwitchTo(g1, next);
    g' := g2;
    SwitchKeepsInv(g, g1, next);
    NextBeside(s1, g1, b, next);
    UndisturbedOn(s, g, s1, g1, s2, g2, b);
    if s1.tasks[next].resumes {
      g' := Housekeeping(g2);
      HousekeepingKeepsInv(g2);
      HousekeepingBeside(s2, g2, b);
      UndisturbedOn(s, g, s2, g2, Housekeeping(s2), g', b);
    }
  }

  /** A tick that does not run a task under construction is a tick of the drafted table. */
  lemma TickBeside(s: State, g: State, b: set<int>) returns (g': State)
    requires Beside(s, g, b) && Inv(g) && s.current !in b && Tick(s).current !in b
    ensures Inv(g') && Beside(Tick(s), g', b) && Undisturbed(s, g, Tick(s), g', b)
  {
    ClockedBeside(s, g, b);
    ClockedKeepsInv(g);
    var s1, g1 := Clocked(s), Clocked(g);
    if s.current == -1 {
      g' := g1;
    } else {
      GiveUpBeside(s1, g1, b);
      if SliceEnds(s1) {
        g' := RescheduleBeside(s1, g1, b);
      } else {
        g' := Housekeeping(Charge(g1));
        ChargeKeepsInv(g1);
        HousekeepingKeepsInv(Charge(g1));
        HousekeepingBeside(Charge(s1), Charge(g1), b);
        UndisturbedOn(s1, g1, Charge(s1), Charge(g1), Housekeeping(Charge(s1)), g', b);
      }
      UndisturbedOn(s, g, s1, g1, Slice(s1), g', b);
    }
  }

  // ------------------------------------------------------------- every step of the system

  /** Slots with a creator that has not finished. */
  ghost function Claimed(makers: map<nat, Maker>): set<int> {
    set c | c in makers && Claims(makers[c]) :: makers[c].slot
  }

  lemma FitsIsBeside(sys: System, g: State)
    requires Fits(sys, g)
    ensures Beside(sys.s, g, Claimed(sys.makers)) && Beside(sys.s, g, Held(sys.makers))
    ensures sys.s.current !in Claimed(sys.makers) && Held(sys.makers) <= Claimed(sys.makers)
  {
    forall k | 0 <= k < 64
      ensures SlotBeside(sys.s, g, Claimed(sys.makers), k) && SlotBeside(sys.s, g, Held(sys.makers), k)
    {
      if k in Claimed(sys.makers) {
        var c :| c in sys.makers && Claims(sys.makers[c]) && sys.makers[c].slot == k;
        assert MakerOk(sys.s, sys.makers[c]);
        assert Holds(sys.makers[c]) || sys.makers[c].stage.Found?;
        if sys.makers[c].stage.Found? { OnlyOneMaker(sys.makers, c); }
      }
    }
    assert forall c :: c in sys.makers ==> MakerOk(sys.s, sys.makers[c]);
  }

  /** A slot just found is not held by another creator. */
  lemma OnlyOneMaker(makers: map<nat, Maker>, c: nat)
    requires Sole(makers) && c in makers && makers[c].stage.Found?
    ensures makers[c].slot !in Held(makers)
  {
  }

  /** The makers do not move, and the slots in b are not disturbed; the slots just found are still unused. */
  lemma BesideFits(sys: System, g: State, sys': System, g': State, b: set<int>)
    requires Fits(sys, g) && sys'.makers == sys.makers && Inv(g') && Held(sys.makers) <= b <= Claimed(sys.makers)
    requires Beside(sys'.s, g', b) && Undisturbed(sys.s, g, sys'.s, g', b)
    requires forall c :: c in sys.makers && Claims(sys.makers[c]) ==> sys.makers[c].slot != sys'.s.current
    requires forall c :: c in sys.makers && sys.makers[c].stage.Found? ==> FoundStays(sys, sys'.s, c)
    ensures Fits(sys', g')
  {
    forall c | c in sys.makers
      ensures MakerOk(sys'.s, sys'.makers[c])
    {
      var m := sys.makers[c];
      assert MakerOk(sys.s, m);
      if Holds(m) { assert m.slot in Held(sys.makers); }
      if m.stage.Found? { assert FoundStays(sys, sys'.s, c); }
    }
    forall i | 0 <= i < 64 && i !in Held(sys.makers)
      ensures g'.tasks[i] == sys'.s.tasks[i]
    {
      assert SlotBeside(sys'.s, g', b, i);
      if i in b {
        var c :| c in sys.makers && Claims(sys.makers[c]) && sys.makers[c].slot == i;
        assert MakerOk(sys.s, sys.makers[c]);
      }
    }
    forall c | c in sys.makers && Holds(sys.makers[c])
      ensures g'.tasks[sys.makers[c].slot] == Draft(sys.makers[c].stack)
    {
      assert MakerOk(sys.s, sys.makers[c]) && sys.makers[c].slot in Held(sys.makers);
    }
  }

  ghost predicate FoundStays(sys: System, s': State, c: nat)
    requires c in sys.makers && Shape(s')
  {
    sys.makers[c].slot < 64 && s'.tasks[sys.makers[c].slot].state == Unused
  }

  /** A tick hands the processor to a ready task only. */
  lemma TickRunsReady(s: State)
    requires Shape(s) && Tick(s).current != s.current
    ensures s.tasks[Tick(s).current].state != Unused
  {
    var s1 := Clocked(s);
    var s2 := GiveUp(Charge(s1));
    PickIsReady(s2.tasks, s2.bitmap, s2.current);
    var next := Tick(s).current;
    assert s2.tasks[next].state == Ready && s1.tasks[next].state == Ready;
    if s.tasks[next].state != Sleeping {
      WakeLeaves(s.(uptime := Wrap(s.uptime + 1)), 0, next);
    }
  }

  lemma TickFits(sys: System, g: State, sys': System) returns (g': State)
    requires Fits(sys, g) && !Clash(sys, Entry(TimerTick)) && sys' == sys.(s := Tick(sys.s))
    ensures Fits(sys', g')
  {
    var b := Claimed(sys.makers);
    FitsIsBeside(sys, g);
    forall c | c in sys.makers && Claims(sys.makers[c])
      ensures sys.makers[c].slot != Tick(sys.s).current
    {
      assert MakerOk(sys.s, sys.makers[c]);
      if Tick(sys.s).current != sys.s.current { TickRunsReady(sys.s); }
    }
    g' := TickBeside(sys.s, g, b);
    forall c | c in sys.makers && sys.makers[c].stage.Found?
      ensures FoundStays(sys, sys'.s, c)
    {
      assert MakerOk(sys.s, sys.makers[c]) && sys.makers[c].slot in b;
    }
    BesideFits(sys, g, sys', g', b);
  }

  /** An entry that changes one slot, which nobody is building. */
  lemma EntryFits(sys: System, g: State, a: Action, sys': System) returns (g': State)
    requires Fits(sys, g) && SystemStep(sys, Entry(a), sys') && (a.SetPriority? || a.Wake? || a.Exit? || a.Sleep?)
    ensures Fits(sys', g')
  {
    var b := Held(sys.makers);
    FitsIsBeside(sys, g);
    var i := if a.SetPriority? || a.Wake? then a.slot else sys.s.current;
    g' := if a.SetPriority? then PrioritySet(g, i, a.prio) else if a.Wake? then Woken(g, i)
          else if a.Exit? then Exited(g, a.code) else Slept(g, a.ms);
    assert Step(g, a, g');
    StepKeepsInv(g, a, g');
    if i == -1 {
      assert sys' == sys && g' == g;
    } else {
      assert SlotBeside(sys.s, g, b, i);
      SlotChangeBeside(sys.s, g, b, i, sys'.s, g');
      forall c | c in sys.makers && sys.makers[c].stage.Found?
        ensures FoundStays(sys, sys'.s, c)
      {
        assert MakerOk(sys.s, sys.makers[c]);
      }
      forall c | c in sys.makers && Claims(sys.makers[c])
        ensures sys.makers[c].slot != sys'.s.current
      {
        assert MakerOk(sys.s, sys.makers[c]);
      }
      BesideFits(sys, g, sys', g', b);
    }
  }

  /** Others use the page allocator. */
  lemma ElsewhereFits(sys: System, g: State, sys': System) returns (g': State)
    requires Fits(sys, g) && SystemStep(sys, Entry(Elsewhere), sys')
    ensures Fits(sys', g')
  {
    g' := g.(used := sys'.s.used);
    FitsIsBeside(sys, g);
    forall k | 0 <= k < 64 && StackOk(g.used, g.tasks[k].stack)
      ensures StackOk(g'.used, g.tasks[k].stack)
    {
      if k in Held(sys.makers) {
        var c :| c in sys.makers && Holds(sys.makers[c]) && sys.makers[c].slot == k;
        assert g.tasks[k] == Draft(sys.makers[c].stack);
      } else {
        assert g.tasks[k] == sys.s.tasks[k];
      }
    }
    StepKeepsInv(g, Elsewhere, g');
    forall c | c in sys.makers
      ensures MakerOk(sys'.s, sys'.makers[c])
    {
      assert MakerOk(sys.s, sys.makers[c]);
    }
  }

  // -------------------------------------------------------------------- the creator's steps

  /** Creator c moves on; what the others claim stays as it is. */
  lemma OthersKeep(sys: System, c: nat, sys': System)
    requires Shape(sys.s) && Shape(sys'.s) && Sole(sys.makers) && c in sys.makers && Claims(sys.makers[c])
    requires forall d :: d in sys.makers ==> MakerOk(sys.s, sys.makers[d])
    requires sys'.makers.Keys == sys.makers.Keys
    requires forall d :: d in sys.makers && d != c ==> sys'.makers[d] == sys.makers[d]
    requires sys'.s.current == sys.s.current && sys'.makers[c].slot == sys.makers[c].slot
             && MakerOk(sys'.s, sys'.makers[c])
    requires forall k :: 0 <= k < 64 && k != sys.makers[c].slot ==> sys'.s.tasks[k] == sys.s.tasks[k]
    ensures Sole(sys'.makers) && forall d :: d in sys'.makers ==> MakerOk(sys'.s, sys'.makers[d])
  {
    forall d | d in sys'.makers
      ensures MakerOk(sys'.s, sys'.makers[d])
    {
      assert MakerOk(sys.s, sys.makers[d]);
    }
  }

  /** Pages for the stack, or none. */
  lemma PagedFits(sys: System, g: State, c: nat, sys': System) returns (g': State)
    requires Fits(sys, g) && c in sys.makers && sys.makers[c].stage.Found? && GoStep(sys, c, sys.makers[c], sys')
    ensures Fits(sys', g')
  {
    var m := sys.makers[c];
    assert MakerOk(sys.s, m);
    if sys'.makers == sys.makers - {c} && sys'.s == sys.s {
      g' := g;
      GoneFits(sys, g, c, sys');
    } else {
      var stack: u32 :| stack % 4096 == 0 && LowestRunTaken(sys.s.used, sys'.s.used, Pfn(stack), 2)
                        && sys' == System(sys.s.(used := sys'.s.used),
                            sys.makers[c := m.(stack := stack, stage := Paged)]);
      OnlyOneMaker(sys.makers, c);
      g' := g.(tasks := g.tasks[m.slot := Draft(stack)], used := sys'.s.used);
      FilledKeepsInv(g, m.slot, g');
      OthersKeep(sys, c, sys');
      HeldGrows(sys.makers, c, sys'.makers);
    }
  }

  lemma HeldGrows(makers: map<nat, Maker>, c: nat, makers': map<nat, Maker>)
    requires c in makers && Claims(makers[c]) && makers'.Keys == makers.Keys
    requires forall d :: d in makers && d != c ==> makers'[d] == makers[d]
    requires makers'[c].slot == makers[c].slot && Holds(makers'[c])
    ensures Held(makers') == Held(makers) + {makers[c].slot as int}
  {
    forall k
      ensures k in Held(makers') <==> k in Held(makers) || k == makers[c].slot
    {
      if k in Held(makers) {
        var d :| d in makers && Holds(makers[d]) && makers[d].slot == k;
        assert Holds(makers'[d]) && makers'[d].slot == k;
      }
    }
  }

  /** A creator without a stack, or with a finished task, goes away. */
  lemma GoneFits(sys: System, g: State, c: nat, sys': System)
    requires Fits(sys, g) && c in sys.makers && !Holds(sys.makers[c])
    requires sys'.makers == sys.makers - {c} && sys'.s == sys.s.(bitmap := sys'.s.bitmap) && Shape(sys'.s)
    ensures Fits(sys', g)
  {
    forall k
      ensures k in Held(sys'.makers) <==> k in Held(sys.makers)
    {
      if k in Held(sys.makers) {
        var d :| d in sys.makers && Holds(sys.makers[d]) && sys.makers[d].slot == k;
        assert d in sys'.makers && Holds(sys'.makers[d]) && sys'.makers[d].slot == k;
      }
    }
    forall d | d in sys'.makers
      ensures MakerOk(sys'.s, sys'.makers[d])
    {
      assert MakerOk(sys.s, sys.makers[d]);
    }
  }

  lemma StoreOk(sys: System, c: nat, sys': System)
    requires Shape(sys.s) && c in sys.makers && MakerOk(sys.s, sys.makers[c]) && GoStep(sys, c, sys.makers[c], sys')
    requires Holds(sys.makers[c]) && !sys.makers[c].stage.Stacked?
    ensures Shape(sys'.s) && c in sys'.makers && MakerOk(sys'.s, sys'.makers[c]) && Holds(sys'.makers[c])
    ensures sys'.makers == sys.makers[c := sys.makers[c].(stage := sys'.makers[c].stage)]
    ensures sys'.s == sys.s.(tasks := sys'.s.tasks, nextId := sys'.s.nextId)
    ensures forall k :: 0 <= k < 64 && k != sys.makers[c].slot ==> sys'.s.tasks[k] == sys.s.tasks[k]
  {
  }

  /** A store to a slot under construction does not show in the drafted table. */
  lemma StoreFits(sys: System, g: State, c: nat, sys': System)
    requires Fits(sys, g) && c in sys.makers && GoStep(sys, c, sys.makers[c], sys')
    requires Holds(sys.makers[c]) && !sys.makers[c].stage.Stacked?
    ensures Fits(sys', g)
  {
    StoreOk(sys, c, sys');
    StoredFits(sys, g, c, sys');
  }

  lemma StoredFits(sys: System, g: State, c: nat, sys': System)
    requires Fits(sys, g) && c in sys.makers && Holds(sys.makers[c])
    requires Shape(sys'.s) && c in sys'.makers && MakerOk(sys'.s, sys'.makers[c]) && Holds(sys'.makers[c])
    requires sys'.makers == sys.makers[c := sys.makers[c].(stage := sys'.makers[c].stage)]
    requires sys'.s == sys.s.(tasks := sys'.s.tasks, nextId := sys'.s.nextId)
    requires forall k :: 0 <= k < 64 && k != sys.makers[c].slot ==> sys'.s.tasks[k] == sys.s.tasks[k]
    ensures Fits(sys', g)
  {
    OthersKeep(sys, c, sys');
    HeldGrows(sys.makers, c, sys'.makers);
    assert sys.makers[c].slot in Held(sys.makers);
    forall d | d in sys'.makers && Holds(sys'.makers[d])
      ensures g.tasks[sys'.makers[d].slot] == Draft(sys'.makers[d].stack)
    {
      assert MakerOk(sys.s, sys.makers[d]);
    }
  }

  /** The last store turns the draft into the task. */
  lemma CompleteFits(sys: System, g: State, c: nat, sys': System) returns (g': State)
    requires Fits(sys, g) && c in sys.makers && sys.makers[c].stage.Stacked? && GoStep(sys, c, sys.makers[c], sys')
    ensures Fits(sys', g')
  {
    var m := sys.makers[c];
    assert MakerOk(sys.s, m) && g.tasks[m.slot] == Draft(m.stack);
    assert SlotOk(g, m.slot);
    assert sys'.s.tasks == sys.s.tasks;
    g' := g.(tasks := g.tasks[m.slot := sys.s.tasks[m.slot]]);
    OneSlot(g, g', m.slot);
    OthersKeep(sys, c, sys');
    forall k
      ensures k in Held(sys'.makers) <==> k in Held(sys.makers) && k != m.slot
    {
      if k in Held(sys.makers) && k != m.slot {
        var d :| d in sys.makers && Holds(sys.makers[d]) && sys.makers[d].slot == k;
        assert Holds(sys'.makers[d]) && sys'.makers[d].slot == k;
      }
      if k in Held(sys'.makers) {
        var d :| d in sys'.makers && Holds(sys'.makers[d]) && sys'.makers[d].slot == k;
        assert d != c && Holds(sys.makers[d]) && sys.makers[d].slot == k;
      }
    }
    forall d | d in sys'.makers && Holds(sys'.makers[d])
      ensures g'.tasks[sys'.makers[d].slot] == Draft(sys'.makers[d].stack)
    {
      assert d != c && MakerOk(sys.s, sys.makers[d]);
    }
  }

  lemma GoFits(sys: System, g: State, c: nat, sys': System) returns (g': State)
    requires Fits(sys, g) && c in sys.makers && GoStep(sys, c, sys.makers[c], sys')
    ensures Fits(sys', g')
  {
    match sys.makers[c].stage
    case Found => g' := PagedFits(sys, g, c, sys');
    case Stacked => g' := CompleteFits(sys, g, c, sys');
    case Complete => g' := g; GoneFits(sys, g, c, sys');
    case _ => g' := g; StoreFits(sys, g, c, sys');
  }

  /** The search finds a slot that nobody claims. */
  lemma FindFits(sys: System, g: State, c: nat, prio: u8, sys': System)
    requires Fits(sys, g) && SystemStep(sys, Find(c, prio), sys') && !Clash(sys, Find(c, prio))
    ensures Fits(sys', g)
  {
    if sys' != sys {
      var i :| FirstUnused(sys.s.tasks, i) && i != -1
          && sys' == System(sys.s, sys.makers[c := Maker(i, prio, 0, Found)]);
      assert i !in Held(sys.makers);
      assert SlotOk(g, i);
      forall d | d in sys'.makers
        ensures MakerOk(sys'.s, sys'.makers[d])
      {
        if d != c { assert MakerOk(sys.s, sys.makers[d]); }
      }
      forall k
        ensures k in Held(sys'.makers) <==> k in Held(sys.makers)
      {
        if k in Held(sys.makers) {
          var d :| d in sys.makers && Holds(sys.makers[d]) && sys.makers[d].slot == k;
          assert d != c && Holds(sys'.makers[d]) && sys'.makers[d].slot == k;
        }
      }
    }
  }

  // ---------------------------------------------------------------------- the main results

  /**
   A step keeps the invariant exactly if it is neither a search that finds a slot which
   another creator claims, nor a tick that runs a task without stack or context.
   */
  lemma StepKeepsIff(sys: System, m: Move, sys': System)
    requires CreationInv(sys) && Shape(sys.s) && SystemStep(sys, m, sys')
    ensures CreationInv(sys') <==> !Clash(sys, m)
  {
    var g :| Fits(sys, g);
    if Clash(sys, m) {
      ClashBreaks(sys, m, sys');
    } else {
      match m
      case Find(c, prio) => FindFits(sys, g, c, prio, sys');
      case Go(c) => var g' := GoFits(sys, g, c, sys');
      case Entry(a) =>
        if a.TimerTick? {
          var g' := TickFits(sys, g, sys');
        } else if a.Elsewhere? {
          var g' := ElsewhereFits(sys, g, sys');
        } else {
          var g' := EntryFits(sys, g, a, sys');
        }
    }
  }

  lemma FindClashBreaks(sys: System, c: nat, prio: u8, sys': System)
    requires Shape(sys.s) && SystemStep(sys, Find(c, prio), sys') && Clash(sys, Find(c, prio))
    ensures !Sole(sys'.makers)
  {
    var d :| d in sys.makers && Claims(sys.makers[d]) && FirstUnused(sys.s.tasks, sys.makers[d].slot);
    assert sys'.makers[c].slot == sys'.makers[d].slot && d != c;
  }

  lemma TickClashBreaks(sys: System, sys': System) returns (d: nat)
    requires Shape(sys.s) && SystemStep(sys, Entry(TimerTick), sys') && Clash(sys, Entry(TimerTick))
    ensures d in sys'.makers && Claims(sys'.makers[d]) && sys'.makers[d].slot == sys'.s.current
  {
    d :| d in sys.makers && HalfBuilt(sys.makers[d]) && Tick(sys.s).current == sys.makers[d].slot;
  }

  lemma ClashBreaks(sys: System, m: Move, sys': System)
    requires Shape(sys.s) && SystemStep(sys, m, sys') && Clash(sys, m)
    ensures !CreationInv(sys')
  {
    if m.Find? {
      FindClashBreaks(sys, m.c, m.prio, sys');
    } else {
      var d := TickClashBreaks(sys, sys');
      assert Shape(sys'.s) ==> !MakerOk(sys'.s, sys'.makers[d]);
    }
  }

  /** A run of the system, from a table that satisfies the scheduler's invariant, with nobody creating. */
  ghost predicate IsSystemRun(states: seq<System>, moves: seq<Move>) {
    |states| == |moves| + 1 && Inv(states[0].s) && states[0].makers == map[]
    && forall i :: 0 <= i < |moves| ==> Shape(states[i].s) && SystemStep(states[i], moves[i], states[i + 1])
  }

  /** Move n is the first that clashes, or no move before n clashes. */
  ghost predicate NoClash(states: seq<System>, moves: seq<Move>, n: nat)
    requires IsSystemRun(states, moves) && n <= |moves|
  {
    forall i :: 0 <= i < n ==> !Clash(states[i], moves[i])
  }

  lemma {:induction false} RunKeepsInv(states: seq<System>, moves: seq<Move>, n: nat)
    requires IsSystemRun(states, moves) && n <= |moves| && NoClash(states, moves, n)
    ensures CreationInv(states[n])
  {
    if n == 0 {
      assert Fits(states[0], states[0].s);
    } else {
      RunKeepsInv(states, moves, n - 1);
      StepKeepsIff(states[n - 1], moves[n - 1], states[n]);
    }
  }

  /**
   Creators may interleave with everything: the invariant holds in all states of a run
   exactly if no move of the run clashes.
   */
  lemma RunIsSoundIff(states: seq<System>, moves: seq<Move>)
    requires IsSystemRun(states, moves)
    ensures (forall n :: 0 <= n <= |moves| ==> CreationInv(states[n])) <==> NoClash(states, moves, |moves|)
  {
    if NoClash(states, moves, |moves|) {
      forall n | 0 <= n <= |moves|
        ensures CreationInv(states[n])
      {
        RunKeepsInv(states, moves, n);
      }
    } else {
      var i :| 0 <= i < |moves| && Clash(states[i], moves[i]);
      ClashBreaks(states[i], moves[i], states[i + 1]);
    }
  }

  /** Whenever nobody is at it, the table satisfies the scheduler's invariant. */
  lemma QuietMeansInv(sys: System)
    requires CreationInv(sys) && forall c :: c in sys.makers ==> !Holds(sys.makers[c])
    ensures Inv(sys.s)
  {
    var g :| Fits(sys, g);
    assert Held(sys.makers) == {};
    assert g.tasks == sys.s.tasks;
    InvIgnores(g, sys.s);
  }

  // ------------------------------------------------------------------ when it does break

  /** Two searches in a row find the same slot, wherever it is. */
  lemma TwoSearchesClash(sys: System, c: nat, p: u8, sys1: System, d: nat, q: u8, sys2: System)
    requires CreationInv(sys) && Shape(sys.s) && exists k :: 0 <= k < 64 && sys.s.tasks[k].state == Unused
    requires SystemStep(sys, Find(c, p), sys1) && SystemStep(sys1, Find(d, q), sys2)
    ensures sys2.makers[c].slot == sys2.makers[d].slot && c != d && !CreationInv(sys2)
  {
    var i :| FirstUnused(sys.s.tasks, i) && i != -1 && sys1 == System(sys.s, sys.makers[c := Maker(i, p, 0, Found)]);
    assert FirstUnused(sys1.s.tasks, sys1.makers[c].slot);
    ClashBreaks(sys1, Find(d, q), sys2);
  }

  /** Creator c stores over a slot that has a stack: it zeroes the slot, or puts its own stack there. */
  ghost predicate Overwrites(sys: System, c: nat, i: nat) {
    Shape(sys.s) && i < 64 && c in sys.makers && sys.makers[c].slot == i
    && (sys.makers[c].stage.Paged? || sys.makers[c].stage.Based?) && sys.s.tasks[i].stack != 0
  }

  /** A tick reaps the task in slot i. */
  ghost predicate Reaps(sys: System, m: Move, i: nat) {
    Shape(sys.s) && i < 64 && m == Entry(TimerTick) && sys.s.tasks[i].stack != 0 && Tick(sys.s).tasks[i].stack == 0
  }

  /** A stack that is overwritten is lost: it stays allocated, and no slot has it any more. */
  lemma StackIsLost(sys: System, c: nat, i: nat, sys': System)
    requires Overwrites(sys, c, i) && GoStep(sys, c, sys.makers[c], sys')
    requires StackOk(sys.s.used, sys.s.tasks[i].stack)
    requires forall k :: 0 <= k < 64 && k != i ==> sys.s.tasks[k].stack != sys.s.tasks[i].stack
    requires sys.makers[c].stage.Based? ==> sys.makers[c].stack != sys.s.tasks[i].stack
    ensures var stack := sys.s.tasks[i].stack;
            StackOk(sys'.s.used, stack) && forall k :: 0 <= k < 64 ==> sys'.s.tasks[k].stack != stack
  {
    forall k | 0 <= k < 64
      ensures sys'.s.tasks[k].stack != sys.s.tasks[i].stack
    {
      assert k != i ==> sys'.s.tasks[k] == sys.s.tasks[k];
    }
  }

  /** A stack stays in its slot until a creator overwrites it or a tick reaps it. */
  lemma StackStays(sys: System, m: Move, sys': System, i: nat)
    requires Shape(sys.s) && Shape(sys'.s) && SystemStep(sys, m, sys') && i < 64 && sys.s.tasks[i].stack != 0
    requires !(m.Go? && Overwrites(sys, m.c, i)) && !Reaps(sys, m, i)
    ensures sys'.s.tasks[i].stack != 0
  {
    match m
    case Find(_, _) =>
    case Go(c) => assert sys.makers[c].slot != i ==> sys'.s.tasks[i] == sys.s.tasks[i];
    case Entry(a) =>
  }

  /** Steps of the system, from any state on. */
  ghost predicate Follow(states: seq<System>, moves: seq<Move>) {
    |states| == |moves| + 1 && (forall i :: 0 <= i <= |moves| ==> Shape(states[i].s))
    && forall i :: 0 <= i < |moves| ==> SystemStep(states[i], moves[i], states[i + 1])
  }

  /** Move k loses the stack in slot i, or reaps the task there. */
  ghost predicate Loses(states: seq<System>, moves: seq<Move>, k: nat, i: nat)
    requires k < |moves| && |states| == |moves| + 1
  {
    (moves[k].Go? && Overwrites(states[k], moves[k].c, i)) || Reaps(states[k], moves[k], i)
  }

  lemma {:induction false} StaysUntil(states: seq<System>, moves: seq<Move>, a: nat, b: nat, i: nat)
    requires Follow(states, moves) && a <= b <= |moves| && i < 64 && states[a].s.tasks[i].stack != 0
    requires forall k :: a <= k < b ==> !Loses(states, moves, k, i)
    ensures states[b].s.tasks[i].stack != 0
    decreases b - a
  {
    if a < b {
      StaysUntil(states, moves, a, b - 1, i);
      assert !Loses(states, moves, b - 1, i);
      StackStays(states[b - 1], moves[b - 1], states[b], i);
    }
  }

  /**
   Two creators that have found the same slot and both get as far as the store of their stack,
   with whatever comes in between: one of the stacks is overwritten and lost, unless a tick
   has reaped the first task before the second creator stores.
   */
  lemma SharedSlotLosesAStack(states: seq<System>, moves: seq<Move>, c: nat, d: nat, a: nat, b: nat, i: nat)
    requires Follow(states, moves) && a < b < |moves| && i < 64
    requires moves[a] == Go(c) && c in states[a].makers && states[a].makers[c].slot == i
    requires states[a].makers[c].stage.Based? && states[a].makers[c].stack != 0
    requires moves[b] == Go(d) && d in states[b].makers && states[b].makers[d].slot == i
    requires states[b].makers[d].stage.Based?
    ensures exists k :: a < k <= b && Loses(states, moves, k, i)
  {
    assert SystemStep(states[a], moves[a], states[a + 1]);
    assert states[a + 1].s.tasks[i].stack != 0;
    if forall k :: a < k < b ==> !Loses(states, moves, k, i) {
      StaysUntil(states, moves, a + 1, b, i);
      assert Loses(states, moves, b, i);
    }
  }

  /** A tick runs slot i next exactly if it ends a slice and the pick is that slot. */
  lemma TickRunsIff(s: State, i: nat)
    requires Shape(s) && i < 64 && i != s.current
    ensures Tick(s).current == i
       <==> s.current >= 0 && SliceEnds(Clocked(s))
            && var s1 := GiveUp(Charge(Clocked(s))); Pick(s1.tasks, s1.bitmap, s1.current) == i
  {
  }

  /** Nobody to wake. */
  lemma {:induction false} NoSleepers(s: State, i: nat)
    requires Shape(s) && i <= 64 && forall k :: 0 <= k < 64 ==> s.tasks[k].state != Sleeping
    ensures Sweep(WakeUp, s, i) == s
    decreases 64 - i
  {
    if i < 64 { NoSleepers(s, i + 1); }
  }

  lemma OnlyBit(bm: seq<u32>, p: u8, r: u8)
    requires |bm| == 8 && forall w :: 0 <= w < 8 ==> bm[w] == 0
    ensures Top(SetPrio(bm, r)) == r && Top(SetPrio(ClearPrio(bm, p), r)) == r
  {
    forall q | 0 <= q < 256
      ensures !BitAt(bm, q) && !BitAt(ClearPrio(bm, p), q)
    {
      ZeroHasNoBits(q % 32);
      PrioSpec(bm, p, q);
    }
    TopOfOne(bm, r);
    TopOfOne(ClearPrio(bm, p), r);
  }

  lemma TopOfOne(bm: seq<u32>, r: u8)
    requires |bm| == 8 && forall q :: 0 <= q < 256 ==> !BitAt(bm, q)
    ensures Top(SetPrio(bm, r)) == r
  {
    forall q | 0 <= q < 256
      ensures BitAt(SetPrio(bm, r), q) <==> q == r
    {
      PrioSpec(bm, r, q);
    }
    assert BitAt(SetPrio(bm, r), r);
    TopFromSpec(SetPrio(bm, r), 255);
  }

  /** The end of a slice of the creator, with nothing else to run but the task it is building. */
  ghost predicate OnlyCreatorAndNew(s: State) {
    Shape(s) && s.current == 0 && s.tasks[0].state == Running && s.tasks[0].run == 9
    && s.tasks[1].state == Ready && s.tasks[1].stack == 0 && !s.tasks[1].resumes
    && s.tasks[1].priority == Demoted(s.tasks[0]).priority < 255
    && (forall k :: 2 <= k < 64 ==> s.tasks[k].state == Unused) && forall w :: 0 <= w < 8 ==> s.bitmap[w] == 0
  }

  lemma NewIsPicked(s: State)
    requires OnlyCreatorAndNew(s)
    ensures var s2 := GiveUp(Charge(s)); s2.tasks[1] == s.tasks[1] && Pick(s2.tasks, s2.bitmap, s2.current) == 1
  {
    var r := Demoted(s.tasks[0]).priority;
    OnlyBit(s.bitmap, s.tasks[0].priority, r);
    var s2 := GiveUp(Charge(s));
    assert s2.current == 0 && Top(s2.bitmap) == r && s2.tasks[1] == s.tasks[1];
    assert Slot(0, 1) == 1 && Matches(s2.tasks[1], r);
  }

  /** If the new task has the creator's next priority, the tick gives the processor to a task without a stack. */
  lemma HalfBuiltTaskRuns(s: State)
    requires OnlyCreatorAndNew(s)
    ensures var s' := Tick(s); s'.current == 1 && s'.tasks[1].state == Running && s'.tasks[1].stack == 0
  {
    var s1 := s.(uptime := Wrap(s.uptime + 1));
    NoSleepers(s1, 0);
    NewIsPicked(s1);
  }

  // ------------------------------------------------------------- a run that breaks it

  /** n ticks after sched_init nothing has changed but the clock and the slice of the idle task. */
  ghost function Ticked(s: State, n: nat): State
    requires Shape(s)
  {
    s.(uptime := Wrap(s.uptime + n), tasks := s.tasks[0 := s.tasks[0].(run := Wrap(s.tasks[0].run + n))])
  }

  lemma QuietTick(s: State)
    requires Booted(s) && s.uptime < 40 && s.tasks[0].run < 9
    ensures Tick(s) == Ticked(s, 1)
  {
    var s1 := s.(uptime := Wrap(s.uptime + 1));
    NoSleepers(s1, 0);
    assert Clocked(s) == s1 && !SliceEnds(s1) && s1.uptime % 50 != 0;
  }

  lemma NextTick(s: State, n: nat)
    requires Booted(s) && s.uptime == 0 && s.tasks[0].run == 0 && 0 < n <= 9
    ensures SystemStep(System(Ticked(s, n - 1), map[]), Entry(TimerTick), System(Ticked(s, n), map[]))
  {
    var sn := Ticked(s, n - 1);
    assert Booted(sn);
    QuietTick(sn);
    assert Ticked(sn, 1) == Ticked(s, n);
  }

  lemma {:induction false} QuietTicks(s: State, n: nat) returns (states: seq<System>, moves: seq<Move>)
    requires Booted(s) && s.uptime == 0 && s.tasks[0].run == 0 && n <= 9
    ensures Follow(states, moves) && |moves| == n && states[0] == System(s, map[])
    ensures states[n] == System(Ticked(s, n), map[])
  {
    if n == 0 {
      states, moves := [System(s, map[])], [];
      assert s.tasks[0 := s.tasks[0].(run := Wrap(s.tasks[0].run + 0))] == s.tasks;
    } else {
      states, moves := QuietTicks(s, n - 1);
      var next := System(Ticked(s, n), map[]);
      NextTick(s, n);
      states, moves := Extended(states, moves, Entry(TimerTick), next);
    }
  }

  /** One more step. */
  lemma Extended(states: seq<System>, moves: seq<Move>, m: Move, next: System)
      returns (states': seq<System>, moves': seq<Move>)
    requires Follow(states, moves) && Shape(next.s) && SystemStep(states[|moves|], m, next)
    ensures states' == states + [next] && moves' == moves + [m] && Follow(states', moves')
  {
    states', moves' := states + [next], moves + [m];
  }

  /** The search, the pages, the zeroing, and the store of id and state, in the slot next to the creator's. */
  lemma BuildToQueued(states: seq<System>, moves: seq<Move>, s: State, prio: u8, stack: u32, used: seq<bool>)
    returns (states': seq<System>, moves': seq<Move>)
    requires Follow(states, moves) && states[|moves|] == System(s, map[]) && Booted(s)
    requires stack % 4096 == 0 && LowestRunTaken(s.used, used, Pfn(stack), 2)
    ensures Follow(states', moves') && |moves'| == |moves| + 4 && states'[..|states|] == states
    ensures states'[|moves'|] == System(QueuedState(s, used), map[0 := Maker(1, prio, stack, Queued)])
  {
    var none: map<nat, Maker> := map[];
    var m0 := Maker(1, prio, 0, Found);
    assert FirstUnused(s.tasks, 1);
    states', moves' := Extended(states, moves, Find(0, prio), System(s, none[0 := m0]));
    var m1, s1 := m0.(stack := stack, stage := Paged), s.(used := used);
    assert none[0 := m0][0 := m1] == none[0 := m1];
    states', moves' := Extended(states', moves', Go(0), System(s1, none[0 := m1]));
    var m2, s2 := m1.(stage := Cleared), s1.(tasks := s1.tasks[1 := Zeroed()]);
    assert none[0 := m1][0 := m2] == none[0 := m2];
    states', moves' := Extended(states', moves', Go(0), System(s2, none[0 := m2]));
    var m3 := m2.(stage := Queued);
    assert none[0 := m2][0 := m3] == none[0 := m3];
    var t := Zeroed().(id := s.nextId, state := Ready);
    assert s2.tasks[1 := t] == s.tasks[1 := t];
    states', moves' := Extended(states', moves', Go(0), System(QueuedState(s, used), none[0 := m3]));
  }

  /** The table once slot 1 reads READY. */
  ghost function QueuedState(s: State, used: seq<bool>): State
    requires Shape(s)
  {
    s.(used := used, nextId := Wrap(s.nextId + 1), tasks := s.tasks[1 := Zeroed().(id := s.nextId, state := Ready)])
  }

  /**
   From the state that sched_init leaves: nine ticks use up the slice of the idle task, which
   then starts to create a task; the tick after the store of its state ends the slice. That
   tick clashes: it hands the processor to a task that has no stack.
   */
  lemma BootRunBreaks(s: State, prio: u8, stack: u32, used: seq<bool>) returns (states: seq<System>, moves: seq<Move>)
    requires Inv(s) && Booted(s) && s.uptime == 0 && s.tasks[0].run == 0
    requires stack % 4096 == 0 && LowestRunTaken(s.used, used, Pfn(stack), 2)
    ensures IsSystemRun(states, moves) && |moves| == 14 && states[0] == System(s, map[])
    ensures moves[13] == Entry(TimerTick) && Clash(states[13], moves[13])
    ensures var s' := states[14].s; s'.current == 1 && s'.tasks[1].state == Running && s'.tasks[1].stack == 0
  {
    states, moves := QuietTicks(s, 9);
    var s9 := Ticked(s, 9);
    assert Booted(s9);
    states, moves := BuildToQueued(states, moves, s9, prio, stack, used);
    var q := QueuedState(s9, used);
    assert Demoted(q.tasks[0]).priority == 0;
    HalfBuiltTaskRuns(q);
    var makers := states[13].makers;
    assert 0 in makers && HalfBuilt(makers[0]) && makers[0].slot == 1;
    states, moves := Extended(states, moves, Entry(TimerTick), System(Tick(q), makers));
  }

  // ------------------------------------------------------------- without interruption

  /** The eight steps after the search, one after the other. */
  ghost predicate Uninterrupted(states: seq<System>, c: nat, prio: u8) {
    |states| == 10 && Shape(states[0].s) && SystemStep(states[0], Find(c, prio), states[1])
    && forall k :: 1 <= k < 9 ==> Shape(states[k].s) && SystemStep(states[k], Go(c), states[k + 1])
  }

  lemma FirstSteps(states: seq<System>, c: nat, prio: u8) returns (i: nat)
    requires Uninterrupted(states, c, prio)
    ensures i < 64 && FirstUnused(states[0].s.tasks, i) && c in states[2].makers
    ensures states[2].s == states[0].s.(used := states[2].s.used)
    ensures states[2].makers == states[0].makers[c := Maker(i, prio, states[2].makers[c].stack, Paged)]
    ensures var stack := states[2].makers[c].stack;
            stack % 4096 == 0 && LowestRunTaken(states[0].s.used, states[2].s.used, Pfn(stack), 2)
  {
    var j :| FirstUnused(states[0].s.tasks, j)
             && states[1] == if j == -1 then states[0]
                 else System(states[0].s, states[0].makers[c := Maker(j, prio, 0, Found)]);
    assert SystemStep(states[1], Go(c), states[2]);
    assert SystemStep(states[2], Go(c), states[3]);
    i := j;
  }

  lemma LaterSteps(states: seq<System>, c: nat, prio: u8)
    requires Uninterrupted(states, c, prio) && c in states[2].makers && states[2].makers[c].stage.Paged?
    ensures var m, s := states[2].makers[c], states[2].s;
            m.slot < 64 && c in states[6].makers && states[6].makers == states[2].makers[c := m.(stage := Based)]
            && states[6].s == s.(tasks := s.tasks[m.slot := NewTask(s.nextId, 0, m.prio)], nextId := Wrap(s.nextId + 1))
  {
    assert SystemStep(states[2], Go(c), states[3]);
    assert SystemStep(states[3], Go(c), states[4]);
    assert SystemStep(states[4], Go(c), states[5]);
    assert SystemStep(states[5], Go(c), states[6]);
  }

  lemma LastSteps(states: seq<System>, c: nat, prio: u8)
    requires Uninterrupted(states, c, prio) && c in states[6].makers && states[6].makers[c].stage.Based?
    ensures var m, s := states[6].makers[c], states[6].s;
            states[9].makers == states[6].makers - {c} && m.slot < 64
            && states[9].s == s.(tasks := s.tasks[m.slot := s.tasks[m.slot].(stack := m.stack)],
                                 bitmap := SetPrio(s.bitmap, m.prio))
  {
    assert SystemStep(states[6], Go(c), states[7]);
    assert SystemStep(states[7], Go(c), states[8]);
    assert SystemStep(states[8], Go(c), states[9]);
  }

  /** Without interruption the single steps come to the one step of creation. */
  lemma UninterruptedIsCreated(states: seq<System>, c: nat, prio: u8) returns (i: int)
    requires Uninterrupted(states, c, prio) && |states[0].s.used| <= 0x10_0000
    ensures i != -1 && Created(states[0].s, prio, i, states[9].s) && states[9].makers == states[0].makers
  {
    i := FirstSteps(states, c, prio);
    LaterSteps(states, c, prio);
    LastSteps(states, c, prio);
    var stack := states[2].makers[c].stack;
    assert states[9].s.tasks == states[0].s.tasks[i := NewTask(states[0].s.nextId, stack, prio)];
    assert c !in states[0].makers;
  }
}
