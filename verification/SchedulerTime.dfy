/**
 What the ticks of kernal/sched/scheduler.c come to over time: how long a task sleeps, how
 long a slice is, what demotion and aging do to a priority, and when a zombie is reaped.
 */
module SchedulerTime {
  import opened Words
  import opened PhysAlloc
  import opened Scheduler

  // ---------------------------------------------------------------------------- one sweep

  /** The sleeper in slot k has slept long enough. */
  predicate Due(s: State, k: nat)
    requires k < |s.tasks|
  {
    s.tasks[k].state == Sleeping && s.tasks[k].sleepUntil <= s.uptime
  }

  predicate DueAt(s: State, k: nat, p: nat)
    requires k < |s.tasks|
  {
    Due(s, k) && s.tasks[k].priority == p
  }

  lemma {:induction false} WakeSweep(s: State, i: nat, k: nat)
    requires Shape(s) && i <= 64 && k < 64
    ensures Sweep(WakeUp, s, i).tasks[k] == if k >= i && Due(s, k) then s.tasks[k].(state := Ready) else s.tasks[k]
    decreases |s.tasks| - i
  {
    if i < 64 { WakeSweep(SlotStep(WakeUp, s, i), i + 1, k); }
  }

  lemma {:induction false} WakeSweepBits(s: State, i: nat, p: nat)
    requires Shape(s) && i <= 64 && p < 256
    ensures BitAt(Sweep(WakeUp, s, i).bitmap, p)
       <==> BitAt(s.bitmap, p) || exists k :: i <= k < 64 && DueAt(s, k, p)
    decreases |s.tasks| - i
  {
    if i < 64 {
      var s1 := SlotStep(WakeUp, s, i);
      PrioSpec(s.bitmap, s.tasks[i].priority, p);
      WakeSweepBits(s1, i + 1, p);
      assert forall k :: i < k < 64 ==> DueAt(s1, k, p) == DueAt(s, k, p);
      if DueAt(s, i, p) {
        assert i <= i < 64;
      } else if k :| i <= k < 64 && DueAt(s, k, p) {
        assert DueAt(s1, k, p);
      }
    }
  }

  /**
   The clock part of a tick. A task becomes ready exactly if it sleeps and its deadline is at
   or before the new time; its priority is then marked, and nothing else changes.
   */
  lemma WakesIff(s: State, k: nat, p: nat)
    requires Shape(s) && k < 64 && p < 256
    ensures var s', now := Clocked(s), Wrap(s.uptime + 1);
            s'.uptime == now && s'.current == s.current && s'.used == s.used
            && (s'.tasks[k].state == Ready
                <==> s.tasks[k].state == Ready || (s.tasks[k].state == Sleeping && s.tasks[k].sleepUntil <= now))
            && (s'.tasks[k] == s.tasks[k] || s'.tasks[k] == s.tasks[k].(state := Ready))
            && (BitAt(s'.bitmap, p) <==> BitAt(s.bitmap, p)
                                         || exists j :: 0 <= j < 64 && DueAt(s.(uptime := now), j, p))
  {
    var s0 := s.(uptime := Wrap(s.uptime + 1));
    WakeSweep(s0, 0, k);
    WakeSweepBits(s0, 0, p);
    WakeSweepUses(s0, 0);
  }

  lemma {:induction false} WakeSweepUses(s: State, i: nat)
    requires Shape(s) && i <= 64
    ensures Sweep(WakeUp, s, i).used == s.used
    decreases |s.tasks| - i
  {
    if i < 64 { WakeSweepUses(SlotStep(WakeUp, s, i), i + 1); }
  }

  /** Every pass treats each slot by itself. */
  lemma {:induction false} SweepAt(pass: Pass, s: State, i: nat, k: nat)
    requires Shape(s) && i <= 64 && k < 64
    ensures Sweep(pass, s, i).tasks[k] == if k < i then s.tasks[k] else SlotStep(pass, s, k).tasks[k]
    decreases |s.tasks| - i
  {
    if i < 64 { SweepAt(pass, SlotStep(pass, s, i), i + 1, k); }
  }

  // ------------------------------------------------------------------------------- sleeping

  /** The number of ticks a sleep lasts: with deadlines modulo 2^32, the first one that reaches it. */
  function Nap(now: u32, ms: u32): nat {
    if now + ms < 0x1_0000_0000 || now == 0xFFFF_FFFF then ms else 1
  }

  lemma NapReaches(now: u32, ms: u32, j: nat)
    requires 1 <= j <= Nap(now, ms)
    ensures Wrap(now + ms) <= Wrap(now + j) <==> j == Nap(now, ms)
  {
    if now == 0xFFFF_FFFF {
      assert Wrap(now + j) == j - 1 && Wrap(now + ms) == ms - 1;
    } else if now + ms >= 0x1_0000_0000 {
      assert Wrap(now + ms) == now + ms - 0x1_0000_0000 && Wrap(now + j) == now + 1;
    }
  }

  /** The task in slot c is neither woken by a call, nor does it exit or go to sleep itself. */
  predicate Undisturbed(s: State, a: Action, c: nat) {
    a != Wake(c) && (a.Exit? || a.Sleep? ==> s.current != c)
  }

  /** A tick that ends the slice of a sleeper that is still current, with nothing to switch to: it goes on. */
  ghost predicate WokenEarly(s: State, a: Action, c: nat)
    requires Shape(s) && c < 64
  {
    a.TimerTick? && s.current == c && Clocked(s).tasks[c].state == Sleeping
    && SliceEnds(Clocked(s)) && NothingElse(Clocked(s))
  }

  lemma HousekeepingAt(s: State, k: nat)
    requires Shape(s) && k < 64
    ensures var t, t' := s.tasks[k], Housekeeping(s).tasks[k];
            (t'.state == Sleeping <==> t.state == Sleeping) && (t.state == Sleeping ==> t' == t)
            && t'.run == t.run && (t.state == Running ==> t' == t)
  {
    HousekeptAt(s, k);
  }

  /** Aging and reaping, slot by slot. */
  lemma HousekeptAt(s: State, k: nat)
    requires Shape(s) && k < 64
    ensures Housekeeping(s).tasks[k] == if s.uptime % 50 == 0 then ReapedTask(Aged(s.tasks[k])) else s.tasks[k]
    ensures Housekeeping(s).uptime == s.uptime && Housekeeping(s).current == s.current
  {
    if s.uptime % 50 == 0 {
      SweepAt(Age, s, 0, k);
      SweepAt(Reap, Sweep(Age, s, 0), 0, k);
    }
  }

  /** What the reaper does to one task: the pass that makes its counter 200 takes its stack. */
  function ReapedTask(t: Task): Task {
    var z := Wrap(t.zombie + 1);
    if t.state != Zombie then t
    else if z >= 200 && t.stack != 0 then t.(zombie := z, stack := 0, state := Unused)
    else t.(zombie := z)
  }

  lemma SleeperSlice(s: State, c: nat)
    requires Shape(s) && 0 <= s.current && c < 64
    ensures var t, t' := s.tasks[c], Slice(s).tasks[c];
            (t.state != Sleeping ==> t'.state != Sleeping)
            && (t.state == Sleeping ==>
                  if s.current == c && SliceEnds(s) && NothingElse(s) then t'.state == Running
                  else t'.state == Sleeping && t'.sleepUntil == t.sleepUntil)
  {
    if !SliceEnds(s) {
      HousekeepingAt(Charge(s), c);
    } else {
      var s1 := GiveUp(Charge(s));
      var next := Pick(s1.tasks, s1.bitmap, s1.current);
      PickIsReady(s1.tasks, s1.bitmap, s1.current);
      if next != -1 && next != s1.current {
        HousekeepingAt(SwitchTo(s1, next), c);
      }
    }
  }

  /** One step of a sleeper. */
  lemma SleeperStep(s: State, a: Action, s': State, c: nat)
    requires Shape(s) && Shape(s') && Step(s, a, s') && c < 64 && Undisturbed(s, a, c)
    ensures s'.uptime == if a.TimerTick? then Wrap(s.uptime + 1) else s.uptime
    ensures s.tasks[c].state != Sleeping ==> s'.tasks[c].state != Sleeping
    ensures s.tasks[c].state == Sleeping ==>
              if WokenEarly(s, a, c) || (a.TimerTick? && s.tasks[c].sleepUntil <= s'.uptime) then
                s'.tasks[c].state != Sleeping
              else
                s'.tasks[c].state == Sleeping && s'.tasks[c].sleepUntil == s.tasks[c].sleepUntil
  {
    match a
    case TimerTick =>
      WakesIff(s, c, 0);
      if s.current >= 0 {
        SleeperSlice(Clocked(s), c);
        SliceKeepsClock(Clocked(s));
      }
    case Create(prio) =>
      var i :| Created(s, prio, i, s');
    case _ =>
  }

  lemma SliceKeepsClock(s: State)
    requires Shape(s) && 0 <= s.current
    ensures Slice(s).uptime == s.uptime
  {
  }

  /** The ticks among the first n actions. */
  function Ticks(actions: seq<Action>, n: nat): (t: nat)
    requires n <= |actions|
  {
    if n == 0 then 0 else Ticks(actions, n - 1) + if actions[n - 1].TimerTick? then 1 else 0
  }

  ghost predicate NeverEarly(states: seq<State>, actions: seq<Action>, c: nat, n: nat)
    requires |states| == |actions| + 1 && n <= |actions| && c < 64
  {
    forall i :: 0 <= i < n ==> Shape(states[i]) && !WokenEarly(states[i], actions[i], c)
  }

  /** The task in slot c is asleep j ticks after it went to sleep for ms at time now. */
  predicate Asleep(s: State, c: nat, now: u32, ms: u32, j: nat)
    requires c < |s.tasks|
  {
    s.tasks[c].state == Sleeping && s.uptime == Wrap(now + j) && s.tasks[c].sleepUntil == Wrap(now + ms)
  }

  /** Either the j ticks since then are too few and nothing has woken the task early, or it is awake. */
  predicate SleptFor(s: State, c: nat, now: u32, ms: u32, j: nat, early: bool)
    requires c < |s.tasks|
  {
    if j < Nap(now, ms) && !early then Asleep(s, c, now, ms, j) else s.tasks[c].state != Sleeping
  }

  lemma AsleepStep(s: State, a: Action, s': State, c: nat, now: u32, ms: u32, j: nat, early: bool)
    requires Shape(s) && Shape(s') && Step(s, a, s') && c < 64 && Undisturbed(s, a, c)
    requires SleptFor(s, c, now, ms, j, early)
    ensures SleptFor(s', c, now, ms, j + if a.TimerTick? then 1 else 0, early || WokenEarly(s, a, c))
  {
    SleeperStep(s, a, s', c);
    if a.TimerTick? && j < Nap(now, ms) {
      OneTickOn(now, j);
      NapReaches(now, ms, j + 1);
    }
  }

  /** Step i of a run, in which the task in slot c is not disturbed. */
  ghost predicate LeftAlone(states: seq<State>, actions: seq<Action>, c: nat, i: nat)
    requires |states| == |actions| + 1 && i < |actions|
  {
    Shape(states[i]) && Shape(states[i + 1]) && Step(states[i], actions[i], states[i + 1])
    && Undisturbed(states[i], actions[i], c)
  }

  /**
   A task that sleeps for ms ticks, as long as nobody wakes it, is asleep exactly until the
   tick Nap(uptime, ms), in every run; unless it is still current when its slice ends with
   nothing to switch to, which wakes it early.
   */
  lemma {:induction false} SleepsIff(s: State, ms: u32, states: seq<State>, actions: seq<Action>, c: nat, n: nat)
    requires |states| == |actions| + 1 && n <= |actions| && Shape(s) && s.current == c && ms > 0
    requires states[0] == Slept(s, ms) && forall i :: 0 <= i < |actions| ==> LeftAlone(states, actions, c, i)
    ensures Shape(states[n])
    ensures SleptFor(states[n], c, s.uptime, ms, Ticks(actions, n), !NeverEarly(states, actions, c, n))
  {
    if n > 0 {
      SleepsIff(s, ms, states, actions, c, n - 1);
      SleepsOneMore(s.uptime, ms, states, actions, c, n - 1);
    }
  }

  lemma SleepsOneMore(now: u32, ms: u32, states: seq<State>, actions: seq<Action>, c: nat, i: nat)
    requires |states| == |actions| + 1 && i < |actions| && LeftAlone(states, actions, c, i) && c < 64
    requires SleptFor(states[i], c, now, ms, Ticks(actions, i), !NeverEarly(states, actions, c, i))
    ensures SleptFor(states[i + 1], c, now, ms, Ticks(actions, i + 1), !NeverEarly(states, actions, c, i + 1))
  {
    AsleepStep(states[i], actions[i], states[i + 1], c, now, ms, Ticks(actions, i),
               !NeverEarly(states, actions, c, i));
    NeverEarlyNext(states, actions, c, i);
  }

  lemma NeverEarlyNext(states: seq<State>, actions: seq<Action>, c: nat, i: nat)
    requires |states| == |actions| + 1 && i < |actions| && c < 64 && Shape(states[i])
    ensures NeverEarly(states, actions, c, i + 1)
       <==> NeverEarly(states, actions, c, i) && !WokenEarly(states[i], actions[i], c)
  {
  }

  lemma OneTickOn(now: u32, j: nat)
    ensures Wrap(Wrap(now + j) + 1) == Wrap(now + (j + 1))
  {
  }

  /** A sleep lasts as many ticks as asked for exactly if the deadline does not wrap, or the clock wraps at once. */
  lemma NapIsExactIff(now: u32, ms: u32)
    requires ms > 0
    ensures Nap(now, ms) == ms <==> ms == 1 || now + ms < 0x1_0000_0000 || now == 0xFFFF_FFFF
  {
  }

  /** Waking a sleeper puts back what going to sleep changed, as a ready task whose priority is marked. */
  lemma WakeUndoesSleep(s: State, ms: u32, p: nat)
    requires Shape(s) && s.current >= 0 && ms > 0 && p < 256
    ensures var t, s' := s.tasks[s.current], Woken(Slept(s, ms), s.current);
            s' == s.(tasks := s.tasks[s.current := t.(state := Ready, sleepUntil := 0)], bitmap := s'.bitmap)
            && |s'.bitmap| == 8 && (BitAt(s'.bitmap, p) <==> p == t.priority || BitAt(s.bitmap, p))
            && (BitAt(Slept(s, ms).bitmap, p) <==> p != t.priority && BitAt(s.bitmap, p))
  {
    var t := s.tasks[s.current];
    PrioSpec(s.bitmap, t.priority, p);
    PrioSpec(Slept(s, ms).bitmap, t.priority, p);
    var ts := Slept(s, ms).tasks;
    assert ts[s.current := t.(state := Ready, sleepUntil := 0)]
        == s.tasks[s.current := t.(state := Ready, sleepUntil := 0)];
  }

  // ------------------------------------------------------------------------------ priorities

  ghost function DemotedTimes(t: Task, n: nat): Task
    decreases n
  {
    if n == 0 then t else DemotedTimes(Demoted(t), n - 1)
  }

  /** After n slices a task has lost n levels, but keeps 1, or 0 if it had that; a real-time task loses none. */
  lemma {:induction false} SlicesDemote(t: Task, n: nat)
    ensures var r := DemotedTimes(t, n);
            r == t.(priority := r.priority)
            && r.priority == if t.base == 255 || t.priority <= 1 then t.priority else Max(1, t.priority - n)
    decreases n
  {
    if n > 0 { SlicesDemote(Demoted(t), n - 1); }
  }

  function Max(a: int, b: int): int {
    if a < b then b else a
  }

  /** The priorities that are marked when the current task has given up its slice. */
  lemma GiveUpBits(s: State, p: nat)
    requires Shape(s) && s.current >= 0 && p < 256
    ensures var t, t', s' := s.tasks[s.current], GiveUp(s).tasks[s.current], GiveUp(s);
            (t'.state == Ready <==> t.state == Ready || t.state == Running) && t'.priority == Demoted(t).priority
            && (BitAt(s'.bitmap, p)
                <==> (p == t'.priority && (t.state == Running || (t.state == Ready && t'.priority != t.priority)))
                     || (BitAt(s.bitmap, p) && !(p == t.priority != t'.priority)))
  {
    var t, d := s.tasks[s.current], Demoted(s.tasks[s.current]);
    PrioSpec(s.bitmap, t.priority, p);
    PrioSpec(s.bitmap, t.priority, d.priority);
    PrioSpec(ClearPrio(s.bitmap, t.priority), d.priority, p);
    PrioSpec(Demotion(s).bitmap, d.priority, p);
  }

  /** Whoever gets the processor is unmarked. */
  lemma RunningUnmarked(s: State, next: nat, p: nat)
    requires Shape(s) && s.current >= 0 && next < 64 && p < 256
    ensures BitAt(GoOn(s).bitmap, p) <==> BitAt(s.bitmap, p) && p != s.tasks[s.current].priority
    ensures BitAt(SwitchTo(s, next).bitmap, p) <==> BitAt(s.bitmap, p) && p != s.tasks[next].priority
  {
    PrioSpec(s.bitmap, s.tasks[s.current].priority, p);
    PrioSpec(s.bitmap, s.tasks[next].priority, p);
  }

  /** A change of priority marks a ready task's new priority, and unmarks its old one. */
  lemma PrioritySetSpec(s: State, i: nat, prio: u8, p: nat)
    requires Shape(s) && i < 64 && p < 256
    ensures var t, s' := s.tasks[i], PrioritySet(s, i, prio);
            s'.tasks[i] == t.(priority := prio, base := prio)
            && (BitAt(s'.bitmap, p)
                <==> if t.state != Ready then BitAt(s.bitmap, p)
                     else p == prio || (BitAt(s.bitmap, p) && p != t.priority))
  {
    PrioSpec(s.bitmap, s.tasks[i].priority, p);
    PrioSpec(ClearPrio(s.bitmap, s.tasks[i].priority), prio, p);
  }

  // ---------------------------------------------------------------------------------- slices

  /** Nothing but ticks. */
  ghost predicate TickRun(states: seq<State>) {
    states != [] && Shape(states[0]) && forall i :: 0 <= i < |states| - 1 ==> TickedAt(states, i)
  }

  ghost predicate TickedAt(states: seq<State>, i: nat)
    requires i < |states| - 1
  {
    Shape(states[i]) && states[i + 1] == Tick(states[i])
  }

  lemma TickShape(s: State)
    requires Shape(s)
    ensures Shape(Tick(s))
  {
    if s.current >= 0 {
      var s1 := Clocked(s);
      if SliceEnds(s1) {
        var s2 := GiveUp(Charge(s1));
        PickIsReady(s2.tasks, s2.bitmap, s2.current);
      }
    }
  }

  /** A slice is ten ticks: a task that starts one keeps the processor for nine, and the tenth ends it. */
  lemma {:induction false} SliceIsTenTicks(states: seq<State>, c: nat, n: nat)
    requires TickRun(states) && n < |states| && n <= 9
    requires states[0].current == c && states[0].tasks[c].run == 0
    ensures InSlice(states[n], c, n) && (EndsNow(states[n]) <==> n == 9)
  {
    if n > 0 {
      SliceIsTenTicks(states, c, n - 1);
      SliceGoesOn(states, c, n - 1);
    } else {
      EndsNowIff(states[0]);
    }
  }

  ghost predicate InSlice(s: State, c: nat, run: nat) {
    Shape(s) && s.current == c && s.tasks[c].run == run
  }

  lemma SliceGoesOn(states: seq<State>, c: nat, i: nat)
    requires i < |states| - 1 && TickedAt(states, i) && InSlice(states[i], c, i) && i < 9
    ensures InSlice(states[i + 1], c, i + 1) && (EndsNow(states[i + 1]) <==> i + 1 == 9)
  {
    TickShape(states[i]);
    TickInSlice(states[i]);
    EndsNowIff(states[i + 1]);
  }

  /** The next tick ends the slice. */
  ghost predicate EndsNow(s: State)
    requires Shape(s) && s.current >= 0
  {
    SliceEnds(Clocked(s))
  }

  lemma EndsNowIff(s: State)
    requires Shape(s) && s.current >= 0 && s.tasks[s.current].run <= 9
    ensures EndsNow(s) <==> s.tasks[s.current].run == 9
  {
    WakesIff(s, s.current, 0);
  }

  /** A tick that does not end the slice charges the current task and keeps it. */
  lemma TickInSlice(s: State)
    requires Shape(s) && s.current >= 0 && s.tasks[s.current].run < 9
    ensures Tick(s).current == s.current && Tick(s).tasks[s.current].run == s.tasks[s.current].run + 1
  {
    WakesIff(s, s.current, 0);
    HousekeepingAt(Charge(Clocked(s)), s.current);
  }

  /** When a slice ends somebody runs, be it a task that has exited or sleeps; a new one starts without a wait. */
  lemma SliceEndRuns(s: State)
    requires Shape(s) && s.current >= 0 && SliceEnds(Clocked(s))
    ensures var s' := Tick(s);
            0 <= s'.current < 64 && |s'.tasks| == 64 && s'.tasks[s'.current].state == Running
            && (s'.current != s.current ==> s'.tasks[s'.current].wait == 0 && s'.tasks[s.current].resumes)
            && s'.tasks[s.current].run == 0
  {
    var s1 := GiveUp(Charge(Clocked(s)));
    PickIsReady(s1.tasks, s1.bitmap, s1.current);
    var next := Pick(s1.tasks, s1.bitmap, s1.current);
    if next != -1 && next != s1.current && s1.tasks[next].resumes {
      var s2 := SwitchTo(s1, next);
      HousekeepingAt(s2, next);
      HousekeepingAt(s2, s.current);
      HousekeptAt(s2, s.current);
    }
  }

  // --------------------------------------------------------------------------------- reaping

  ghost function ReapedTimes(t: Task, n: nat): (r: Task)
    decreases n
  {
    if n == 0 then t else ReapedTask(ReapedTimes(t, n - 1))
  }

  /** A zombie keeps its stack for as many passes as are missing to 200; the next thing is an unused slot. */
  lemma {:induction false} ReapedIff(t: Task, n: nat)
    requires t.state == Zombie && t.stack != 0 && t.zombie < 200 && t.zombie + n < 0x1_0000_0000
    ensures ReapedTo(t, ReapedTimes(t, n), t.zombie + n)
    decreases n
  {
    if n > 0 {
      ReapedIff(t, n - 1);
      ReapedStep(t, ReapedTimes(t, n - 1), t.zombie + n - 1);
    }
  }

  /** The zombie t when its counter has come to z. */
  ghost predicate ReapedTo(t: Task, r: Task, z: nat) {
    if z < 200 then r == t.(zombie := z) else r.state == Unused && r.stack == 0
  }

  lemma ReapedStep(t: Task, r: Task, z: nat)
    requires t.state == Zombie && t.stack != 0 && z + 1 < 0x1_0000_0000 && ReapedTo(t, r, z)
    ensures ReapedTo(t, ReapedTask(r), z + 1)
  {
  }

  /** A task that exits keeps its exit code for 200 passes, and its slot is then free again. */
  lemma ExitThenReaped(s: State, code: int, n: nat)
    requires Inv(s) && s.current >= 0 && n < 0x1_0000_0000
    ensures var t := ReapedTimes(Exited(s, code).tasks[s.current], n);
            (t.state == Unused <==> n >= 200) && (t.stack == 0 <==> n >= 200)
            && (n < 200 ==> t.state == Zombie && t.exitCode == code && t.stack == s.tasks[s.current].stack)
  {
    assert SlotOk(s, s.current);
    ReapedIff(Exited(s, code).tasks[s.current], n);
  }

  /** One running task, and nobody else who is ready or asleep. */
  ghost predicate Alone(s: State, c: nat) {
    Shape(s) && s.current == c < 64 && s.tasks[c].state == Running && s.tasks[c].run < 10
    && forall k :: 0 <= k < 64 && k != c ==> s.tasks[k].state != Ready && s.tasks[k].state != Sleeping
  }

  lemma AloneClock(s: State, c: nat)
    requires Alone(s, c)
    ensures Clocked(s).tasks == s.tasks
  {
    forall k | 0 <= k < 64
      ensures Clocked(s).tasks[k] == s.tasks[k]
    {
      WakeSweep(s.(uptime := Wrap(s.uptime + 1)), 0, k);
    }
  }

  /** A tick inside a slice of a task that is alone: the others are reaped at every multiple of fifty. */
  lemma AloneInSlice(s: State, c: nat, k: nat)
    requires Alone(s, c) && s.tasks[c].run < 9 && k < 64
    ensures var s', now := Tick(s), Wrap(s.uptime + 1);
            s'.uptime == now && s'.current == c
            && s'.tasks[k] == if k == c then s.tasks[c].(run := s.tasks[c].run + 1)
                              else if now % 50 == 0 then ReapedTask(s.tasks[k]) else s.tasks[k]
  {
    AloneClock(s, c);
    WakesIff(s, c, 0);
    HousekeptAt(Charge(Clocked(s)), k);
  }

  /** The tick that ends a slice of a task that is alone: it goes on, and nobody is reaped. */
  lemma AloneSliceEnd(s: State, c: nat, k: nat)
    requires Alone(s, c) && s.tasks[c].run == 9 && k < 64
    ensures var s', now := Tick(s), Wrap(s.uptime + 1);
            s'.uptime == now && s'.current == c
            && (k != c ==> s'.tasks[k] == s.tasks[k]) && s'.tasks[c].run == 0 && s'.tasks[c].state == Running
  {
    AloneClock(s, c);
    WakesIff(s, c, 0);
    var s1 := GiveUp(Charge(Clocked(s)));
    PickIsReady(s1.tasks, s1.bitmap, s1.current);
  }

  lemma AloneTick(s: State, c: nat, k: nat)
    requires Alone(s, c) && k < 64 && k != c
    ensures var s', now := Tick(s), Wrap(s.uptime + 1);
            Alone(s', c) && s'.uptime == now && s'.tasks[c].run == (s.tasks[c].run + 1) % 10
            && s'.tasks[k] == if now % 50 == 0 && s.tasks[c].run < 9 then ReapedTask(s.tasks[k]) else s.tasks[k]
  {
    TickShape(s);
    forall j | 0 <= j < 64
      ensures j != c ==> Tick(s).tasks[j].state != Ready && Tick(s).tasks[j].state != Sleeping
    {
      if s.tasks[c].run < 9 { AloneInSlice(s, c, j); } else { AloneSliceEnd(s, c, j); }
    }
    if s.tasks[c].run < 9 {
      AloneInSlice(s, c, k);
      AloneInSlice(s, c, c);
    } else {
      AloneSliceEnd(s, c, k);
    }
  }

  /** The multiples of fifty that the clock passes in n ticks, if they do not coincide with slice ends. */
  function Passes(now: nat, run: nat, n: nat): nat {
    if run == now % 10 then 0 else (now + n) / 50 - now / 50
  }

  lemma PassesStep(now: nat, run: nat, n: nat)
    requires run < 10
    ensures Passes(now, run, n + 1)
         == Passes(now, run, n) + if (now + n + 1) % 50 == 0 && (run + n) % 10 < 9 then 1 else 0
    ensures (run + n + 1) % 10 == ((run + n) % 10 + 1) % 10
  {
    Fifties(now + n);
    NextOfTen(run + n);
    if (now + n + 1) % 50 == 0 { InStepIff(now, run, n + 1); }
  }

  lemma NextOfTen(x: nat)
    ensures (x + 1) % 10 == (x % 10 + 1) % 10 && (x % 10 < 9 <==> (x + 1) % 10 != 0)
  {
  }

  lemma Fifties(x: nat)
    ensures (x + 1) / 50 == x / 50 + if (x + 1) % 50 == 0 then 1 else 0
    ensures (x + 1) % 50 == 0 ==> (x + 1) % 10 == 0
  {
  }

  lemma InStepIff(now: nat, run: nat, n: nat)
    requires run < 10 && (now + n) % 10 == 0
    ensures (run + n) % 10 == 0 <==> run == now % 10
  {
  }

  /** The state n ticks after a task was alone at time now, its slice run ticks old, with t in slot k. */
  ghost predicate AloneAt(s: State, c: nat, k: nat, now: nat, run: nat, t: Task, n: nat)
    requires k < 64
  {
    Alone(s, c) && s.uptime == now + n && s.tasks[c].run == (run + n) % 10
    && s.tasks[k] == ReapedTimes(t, Passes(now, run, n))
  }

  lemma {:induction false} AloneTicks(states: seq<State>, c: nat, k: nat, n: nat)
    requires TickRun(states) && n < |states| && Alone(states[0], c) && k < 64 && k != c
    requires states[0].uptime + n < 0x1_0000_0000
    ensures AloneAt(states[n], c, k, states[0].uptime, states[0].tasks[c].run, states[0].tasks[k], n)
  {
    if n > 0 {
      AloneTicks(states, c, k, n - 1);
      AloneStep(states, c, k, states[0].uptime, states[0].tasks[c].run, states[0].tasks[k], n - 1);
    }
  }

  lemma AloneStep(states: seq<State>, c: nat, k: nat, now: nat, run: nat, t: Task, n: nat)
    requires n < |states| - 1 && TickedAt(states, n) && k < 64 && k != c && now + n + 1 < 0x1_0000_0000 && run < 10
    requires AloneAt(states[n], c, k, now, run, t, n)
    ensures AloneAt(states[n + 1], c, k, now, run, t, n + 1)
  {
    AloneTick(states[n], c, k);
    PassesStep(now, run, n);
  }

  /**
   Beside a single running task a zombie is reaped with the two-hundredth multiple of fifty
   that the clock passes, exactly if the slices of that task are out of step with the clock.
   In step, as from boot on, every multiple of fifty ends a slice, and it is never reaped.
   */
  lemma ReapedAloneIff(states: seq<State>, c: nat, k: nat, n: nat)
    requires TickRun(states) && n < |states| && Alone(states[0], c) && k < 64 && k != c
    requires states[0].uptime + n < 0x1_0000_0000
    requires var t := states[0].tasks[k]; t.state == Zombie && t.stack != 0 && t.zombie < 200
    ensures var s, t := states[0], states[0].tasks[k];
            Shape(states[n])
            && (states[n].tasks[k].state == Unused
                <==> s.tasks[c].run != s.uptime % 10 && t.zombie + (s.uptime + n) / 50 - s.uptime / 50 >= 200)
            && (states[n].tasks[k].state == Unused
                || states[n].tasks[k] == t.(zombie := states[n].tasks[k].zombie))
  {
    AloneTicks(states, c, k, n);
    ReapedIff(states[0].tasks[k], Passes(states[0].uptime, states[0].tasks[c].run, n));
  }

  // ---------------------------------------------------------------------------------- aging

  /**
   A tick that ages and reaps: at a multiple of fifty, and not if it ends a slice, unless the
   next task was switched out in the handler.
   */
  ghost predicate Ages(s: State)
    requires Shape(s) && s.current >= 0
  {
    Wrap(s.uptime + 1) % 50 == 0
    && (EndsNow(s) ==> Tick(s).current != s.current && 0 <= Tick(s).current < 64
                       && s.tasks[Tick(s).current].resumes)
  }

  /** A ready task that does not get the processor is aged by a tick exactly if that tick ages. */
  lemma TickAgesIff(s: State, k: nat)
    requires Shape(s) && s.current >= 0 && k < 64 && s.tasks[k].state == Ready
    requires k != s.current && k != Tick(s).current
    ensures Tick(s).tasks[k] == if Ages(s) then Aged(s.tasks[k]) else s.tasks[k]
  {
    WakesIff(s, k, 0);
    var s1 := Clocked(s);
    if !EndsNow(s) {
      HousekeptAt(Charge(s1), k);
    } else {
      SliceEndAges(s, k);
    }
  }

  lemma SliceEndAges(s: State, k: nat)
    requires Shape(s) && s.current >= 0 && k < 64 && EndsNow(s) && Clocked(s).tasks[k].state == Ready
    requires k != s.current && k != Tick(s).current
    ensures Tick(s).tasks[k] == if Ages(s) then Aged(Clocked(s).tasks[k]) else Clocked(s).tasks[k]
  {
    WakesIff(s, k, 0);
    var s1 := Clocked(s);
    DispatchAges(GiveUp(Charge(s1)), k);
    var c := Dispatch(GiveUp(Charge(s1))).current;
    if 0 <= c < 64 { WakesIff(s, c, 0); }
  }

  lemma DispatchAges(s: State, k: nat)
    requires Shape(s) && s.current >= 0 && k < 64 && s.tasks[k].state == Ready
    requires k != s.current && k != Dispatch(s).current
    ensures var c := Dispatch(s).current;
            0 <= c < 64
            && Dispatch(s).tasks[k] == if c != s.current && s.tasks[c].resumes && s.uptime % 50 == 0
                                       then Aged(s.tasks[k])
                                       else s.tasks[k]
  {
    var next := Pick(s.tasks, s.bitmap, s.current);
    if next != -1 && next != s.current { HousekeptAt(SwitchTo(s, next), k); }
  }

  // ------------------------------------------------------------ slices in step with the clock

  /** The current slice began at a multiple of ten. */
  ghost predicate InStep(s: State) {
    Shape(s) && s.current >= 0 && s.tasks[s.current].run == s.uptime % 10
  }

  /** Whoever runs after the end of a slice starts a new one. */
  lemma NewSliceStarts(s: State)
    requires Inv(s) && s.current >= 0 && EndsNow(s)
    ensures var s' := Tick(s);
            s'.uptime == Wrap(s.uptime + 1)
            && 0 <= s'.current < 64 && |s'.tasks| == 64 && s'.tasks[s'.current].run == 0
  {
    ClockedKeepsInv(s);
    var s1 := GiveUp(Charge(Clocked(s)));
    var next := Pick(s1.tasks, s1.bitmap, s1.current);
    PickIsReady(s1.tasks, s1.bitmap, s1.current);
    if next != -1 && next != s1.current {
      assert SlotOk(Clocked(s), next);
      HousekeepingAt(SwitchTo(s1, next), next);
      HousekeptAt(SwitchTo(s1, next), next);
    }
    WakesIff(s, s.current, 0);
  }

  lemma TickInStep(s: State)
    requires Inv(s) && InStep(s) && s.uptime < 0xFFFF_FFFF
    ensures InStep(Tick(s)) && (EndsNow(s) <==> (s.uptime + 1) % 10 == 0)
  {
    EndsNowIff(s);
    NextOfTen(s.uptime);
    if EndsNow(s) { NewSliceInStep(s); } else { SliceInStep(s); }
  }

  lemma NewSliceInStep(s: State)
    requires Inv(s) && s.current >= 0 && EndsNow(s) && s.uptime < 0xFFFF_FFFF && (s.uptime + 1) % 10 == 0
    ensures InStep(Tick(s))
  {
    TickShape(s);
    NewSliceStarts(s);
  }

  lemma SliceInStep(s: State)
    requires InStep(s) && s.tasks[s.current].run < 9 && s.uptime < 0xFFFF_FFFF
    requires (s.uptime + 1) % 10 == s.uptime % 10 + 1
    ensures InStep(Tick(s))
  {
    TickShape(s);
    TickClock(s);
    TickInSlice(s);
  }

  lemma TickClock(s: State)
    requires Shape(s) && s.current >= 0
    ensures Tick(s).uptime == Wrap(s.uptime + 1)
  {
    WakesIff(s, s.current, 0);
    SliceKeepsClock(Clocked(s));
  }

  lemma StepInStep(s: State, a: Action, s': State)
    requires Inv(s) && InStep(s) && Step(s, a, s') && (a.TimerTick? ==> s.uptime < 0xFFFF_FFFF)
    ensures InStep(s')
  {
    match a
    case TimerTick => TickInStep(s);
    case Create(prio) =>
      var i :| Created(s, prio, i, s');
      assert SlotOk(s, s.current);
    case _ =>
  }

  /** From boot on, until the clock wraps, slices stay in step with the clock in every run. */
  lemma {:induction false} RunInStep(states: seq<State>, actions: seq<Action>, n: nat)
    requires IsRun(states, actions) && n < |states| && InStep(states[0])
    requires forall i :: 0 <= i < |actions| ==> states[i].uptime < 0xFFFF_FFFF
    ensures InStep(states[n])
  {
    if n > 0 {
      RunInStep(states, actions, n - 1);
      StatesKeepInv(states, actions, n - 1);
      StepInStep(states[n - 1], actions[n - 1], states[n]);
    }
  }

  /**
   So every multiple of fifty ends a slice, and the only ticks that age and reap are those
   that switch to a task that was itself switched out inside the handler.
   */
  lemma AgesInStepIff(states: seq<State>, actions: seq<Action>, n: nat)
    requires IsRun(states, actions) && n < |states| && InStep(states[0]) && states[n].uptime < 0xFFFF_FFFF
    requires forall i :: 0 <= i < |actions| ==> states[i].uptime < 0xFFFF_FFFF
    ensures InStep(states[n])
    ensures var s, s' := states[n], Tick(states[n]);
            Ages(s) <==> (s.uptime + 1) % 50 == 0 && s'.current != s.current && s.tasks[s'.current].resumes
  {
    RunInStep(states, actions, n);
    StatesKeepInv(states, actions, n);
    TickInStep(states[n]);
    Fifties(states[n].uptime);
  }

  /** A promotion marks the new priority and unmarks the old one; otherwise no mark changes. */
  lemma AgedBits(s: State, i: nat, p: nat)
    requires Shape(s) && i < 64 && p < 256
    ensures var t, r := s.tasks[i], Aged(s.tasks[i]);
            BitAt(AgeSlot(s, i).bitmap, p)
            <==> if r.priority == t.priority then BitAt(s.bitmap, p)
                 else p == t.priority + 1 || (BitAt(s.bitmap, p) && p != t.priority)
  {
    PrioSpec(s.bitmap, s.tasks[i].priority, p);
    PrioSpec(ClearPrio(s.bitmap, s.tasks[i].priority), Aged(s.tasks[i]).priority, p);
  }

  // ----------------------------------------------------------------------- a sleep that fails

  lemma EmptyTop(bm: seq<u32>)
    requires |bm| == 8 && forall p :: 0 <= p < 256 ==> !BitAt(bm, p)
    ensures Top(bm) == 255
  {
    TopFromSpec(bm, 255);
  }

  /**
   With nobody else ready, a task that goes to sleep for five ticks at the end of its slice is
   run again by the very next tick, four ticks early.
   */
  lemma SleepIsCutShort(s: State)
    requires Booted(s) && s.tasks[0].run == 9 && s.uptime == 100 && s.tasks[0].base == 0
    ensures WokenEarly(Slept(s, 5), TimerTick, 0) && Tick(Slept(s, 5)).tasks[0].state == Running
  {
    var z := Slept(s, 5);
    assert ClearPrio(s.bitmap, 0) == z.bitmap;
    WakesIff(z, 0, 0);
    var s1 := Clocked(z);
    var s2 := GiveUp(Charge(s1));
    forall p | 0 <= p < 256
      ensures !BitAt(s2.bitmap, p)
    {
      ZeroHasNoBits(p % 32);
      PrioSpec(s.bitmap, 0, p);
      WakesIff(z, 0, p);
    }
    EmptyTop(s2.bitmap);
    SleeperSlice(s1, 0);
  }

  // -------------------------------------------------------------------------------- stacks

  ghost function StackSlots(s: State): set<int>
    requires Shape(s)
  {
    set i | 0 <= i < 64 && s.tasks[i].stack != 0
  }

  /** The free frames, and those of the stacks. */
  ghost function Frames(s: State): int
    requires Shape(s)
  {
    CountFree(s.used) + 2 * |StackSlots(s)|
  }

  lemma SameFrames(s: State, s': State)
    requires Shape(s) && Shape(s') && s'.used == s.used
    requires forall k :: 0 <= k < 64 ==> s'.tasks[k].stack == s.tasks[k].stack
    ensures Frames(s') == Frames(s)
  {
    assert StackSlots(s') == StackSlots(s);
  }

  /** Reaping gives back the two frames of the stack, and only those. */
  lemma ReapFrames(s: State, i: nat)
    requires Inv(s) && i < 64 && Room(Reap, s, i)
    ensures Shape(ReapSlot(s, i)) && Frames(ReapSlot(s, i)) == Frames(s)
  {
    var s' := ReapSlot(s, i);
    if s'.tasks[i].stack == s.tasks[i].stack {
      SameFrames(s, s');
    } else {
      assert SlotOk(s, i);
      StackAdded(s', s, i);
      StackFreed(s.used, s.tasks[i].stack);
    }
  }

  lemma StackFreed(used: seq<bool>, stack: u32)
    requires StackOk(used, stack)
    ensures CountFree(Fill(used, Pfn(stack), Pfn(stack) + 2, false)) == CountFree(used) + 2
  {
    CountFreeFill(used, Pfn(stack), Pfn(stack) + 2, false);
  }

  lemma {:induction false} SweepFrames(pass: Pass, s: State, i: nat)
    requires Inv(s) && i <= 64 && Room(pass, s, i)
    ensures Frames(Sweep(pass, s, i)) == Frames(s)
    decreases |s.tasks| - i
  {
    if i < 64 {
      SlotStepKeepsInv(pass, s, i);
      if pass == Reap { ReapFrames(s, i); } else { SameFrames(s, SlotStep(pass, s, i)); }
      SweepFrames(pass, SlotStep(pass, s, i), i + 1);
    }
  }

  lemma HousekeepingFrames(s: State)
    requires Inv(s) && Room(Reap, s, 0)
    ensures Shape(Housekeeping(s)) && Frames(Housekeeping(s)) == Frames(s)
  {
    if s.uptime % 50 == 0 {
      SweepKeepsInv(Age, s, 0);
      SweepFrames(Age, s, 0);
      SweepFrames(Reap, Sweep(Age, s, 0), 0);
    }
  }

  lemma DispatchFrames(s: State, s1: State)
    requires Inv(s) && s.current >= 0 && GaveUp(s, s1)
    ensures Shape(Dispatch(s1)) && Frames(Dispatch(s1)) == Frames(s)
  {
    var next := Pick(s1.tasks, s1.bitmap, s1.current);
    PickIsReady(s1.tasks, s1.bitmap, s1.current);
    if next == -1 || next == s1.current {
      SameFrames(s, GoOn(s1));
    } else {
      SwitchKeepsInv(s, s1, next);
      SameFrames(s, SwitchTo(s1, next));
      HousekeepingFrames(SwitchTo(s1, next));
    }
  }

  lemma TickFrames(s: State)
    requires Inv(s)
    ensures Shape(Tick(s)) && Frames(Tick(s)) == Frames(s)
  {
    var s0 := s.(uptime := Wrap(s.uptime + 1));
    SameFrames(s, s0);
    TimePasses(s);
    SweepFrames(WakeUp, s0, 0);
    ClockedKeepsInv(s);
    var s1 := Clocked(s);
    if s1.current >= 0 {
      if SliceEnds(s1) {
        assert SlotOk(s1, s1.current);
        GiveUpSpec(s1);
        DispatchFrames(s1, GiveUp(Charge(s1)));
      } else {
        ChargeKeepsInv(s1);
        SameFrames(s1, Charge(s1));
        HousekeepingFrames(Charge(s1));
      }
    }
  }

  lemma TimePasses(s: State)
    requires Inv(s)
    ensures Inv(s.(uptime := Wrap(s.uptime + 1)))
  {
    var s0 := s.(uptime := Wrap(s.uptime + 1));
    forall k | 0 <= k < 64
      ensures SlotOk(s0, k)
    {
      assert SlotOk(s, k);
    }
    SameStacks(s, s0);
  }

  lemma CreatedFrames(s: State, prio: u8, i: int, s': State)
    requires Inv(s) && Created(s, prio, i, s')
    ensures Shape(s') && Frames(s') == Frames(s)
  {
    if i != -1 {
      assert SlotOk(s, i);
      var p := Pfn(s'.tasks[i].stack);
      assert FreeRun(s.used, p, 2);
      assert s'.used == Fill(s.used, p, p + 2, true);
      CountFreeFill(s.used, p, p + 2, true);
      StackAdded(s, s', i);
    }
  }

  lemma StackAdded(s: State, s': State, i: nat)
    requires Shape(s) && Shape(s') && i < 64 && s.tasks[i].stack == 0 != s'.tasks[i].stack
    requires forall k :: 0 <= k < 64 && k != i ==> s'.tasks[k].stack == s.tasks[k].stack
    ensures |StackSlots(s')| == |StackSlots(s)| + 1
  {
    assert StackSlots(s') == StackSlots(s) + {i};
  }

  lemma StepFrames(s: State, a: Action, s': State)
    requires Inv(s) && Step(s, a, s') && !a.Elsewhere?
    ensures Shape(s') && Frames(s') == Frames(s)
  {
    match a
    case TimerTick => TickFrames(s);
    case Create(prio) =>
      var i :| Created(s, prio, i, s');
      CreatedFrames(s, prio, i, s');
    case _ => SameFrames(s, s');
  }

  /** No frame is lost: as long as nobody else allocates, free frames and stacks stay the same number together. */
  lemma {:induction false} FramesConserved(states: seq<State>, actions: seq<Action>, n: nat)
    requires IsRun(states, actions) && n < |states| && forall i :: 0 <= i < |actions| ==> !actions[i].Elsewhere?
    ensures Shape(states[n]) && Frames(states[n]) == Frames(states[0])
  {
    if n > 0 {
      FramesConserved(states, actions, n - 1);
      StatesKeepInv(states, actions, n - 1);
      StepFrames(states[n - 1], actions[n - 1], states[n]);
    }
  }
}
