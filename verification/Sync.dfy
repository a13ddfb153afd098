/**
 The blocking primitives of kernal/sync/sync.c. A spinlock-protected section is one atomic
 step; a blocking call is a loop of such steps with sleeps between, so a blocked thread is
 one whose next step changes nothing it waits for. The systems below let the steps of any
 number of threads interleave in any order.
 */
module Sync {
  import opened Words

  // --------------------------------------------------------------------------- semaphore

  datatype Sem = Sem(value: int, waiters: seq<u32>)

  /** One round of the loop of sem_wait; tid is None before the scheduler has a current task. */
  ghost function DownStep(s: Sem, tid: Option<u32>): (Sem, bool) {
    if s.value > 0 then (s.(value := s.value - 1), true)
    else if tid.Some? && |s.waiters| < 16 then (s.(waiters := s.waiters + [tid.value]), false)
    else (s, false)
  }

  ghost function TryStep(s: Sem): (Sem, bool) {
    if s.value > 0 then (s.(value := s.value - 1), true) else (s, false)
  }

  ghost function UpStep(s: Sem): Sem {
    Sem(s.value + 1, if s.waiters == [] then [] else s.waiters[..|s.waiters| - 1])
  }

  class Semaphore {
    var value: int
    const waiters: array<u32>
    var waiterCount: nat

    ghost predicate Valid()
      reads this, waiters
    {
      waiters.Length == 16 && waiterCount <= 16
    }

    ghost function Now(): (s: Sem)
      requires Valid()
      reads this, waiters
    {
      Sem(value, waiters[..waiterCount])
    }

    constructor (initial: int)
      ensures Valid() && Now() == Sem(initial, []) && fresh(waiters)
    {
      value, waiterCount, waiters := initial, 0, new u32[16](_ => 0);
    }

    /** One round of the loop of sem_wait. */
    method Down(tid: Option<u32>) returns (got: bool)
      requires Valid()
      modifies this, waiters
      ensures Valid() && (Now(), got) == DownStep(old(Now()), tid)
      ensures (got <==> old(value) > 0) && value == (if got then old(value) - 1 else old(value))
      ensures waiterCount == old(waiterCount) + (if !got && tid.Some? && old(waiterCount) < 16 then 1 else 0)
    {
      if value > 0 {
        value := value - 1;
        return true;
      }
      if tid.Some? && waiterCount < 16 {
        waiters[waiterCount] := tid.value;
        waiterCount := waiterCount + 1;
        assert waiters[..waiterCount] == old(waiters[..waiterCount]) + [tid.value];
      }
      got := false;
    }

    method TryDown() returns (got: bool)
      requires Valid()
      modifies this
      ensures Valid() && (Now(), got) == TryStep(old(Now()))
      ensures (got <==> old(value) > 0) && value == (if got then old(value) - 1 else old(value))
    {
      got := value > 0;
      if got { value := value - 1; }
    }

    /** sem_post; the signed counter must not be at its maximum. */
    method Up()
      requires Valid() && value < 0x7FFF_FFFF
      modifies this
      ensures Valid() && Now() == UpStep(old(Now())) && value == old(value) + 1
      ensures waiterCount == old(waiterCount) - (if old(waiterCount) > 0 then 1 else 0)
    {
      value := value + 1;
      if waiterCount > 0 { waiterCount := waiterCount - 1; }
    }
  }

  datatype SemAction = Wait(tid: Option<u32>) | TryWait | Post

  /** The semaphore after a run, with the number of units granted and posted on the way. */
  ghost function SemRun(s: Sem, actions: seq<SemAction>): (Sem, nat, nat)
    decreases |actions|
  {
    if actions == [] then (s, 0, 0)
    else
      var (s1, got, up) :=
        match actions[0]
        case Wait(tid) => (DownStep(s, tid).0, if DownStep(s, tid).1 then 1 else 0, 0)
        case TryWait => (TryStep(s).0, if TryStep(s).1 then 1 else 0, 0)
        case Post => (UpStep(s), 0, 1);
      var (s2, g, p) := SemRun(s1, actions[1..]);
      (s2, got + g, up + p)
  }

  /** Units are conserved: what was granted never exceeds what was there and what was posted. */
  lemma {:induction false} SemaphoreConserves(s: Sem, actions: seq<SemAction>)
    requires s.value >= 0 && |s.waiters| <= 16
    ensures var (t, granted, posted) := SemRun(s, actions);
            t.value == s.value + posted - granted && granted <= s.value + posted && |t.waiters| <= 16
    decreases |actions|
  {
    if actions != [] {
      var s1 := match actions[0]
                case Wait(tid) => DownStep(s, tid).0
                case TryWait => TryStep(s).0
                case Post => UpStep(s);
      SemaphoreConserves(s1, actions[1..]);
    }
  }

  /** After any run the semaphore grants the next unit exactly if fewer were granted than there were and were posted. */
  lemma SemaphoreGrantsIff(s: Sem, actions: seq<SemAction>, tid: Option<u32>)
    requires s.value >= 0 && |s.waiters| <= 16
    ensures var (t, granted, posted) := SemRun(s, actions);
            (DownStep(t, tid).1 <==> granted < s.value + posted) && (TryStep(t).1 <==> granted < s.value + posted)
  {
    SemaphoreConserves(s, actions);
  }

  // ------------------------------------------------------------------------------- mutex

  datatype Lock = Lock(owner: u32, depth: u32)

  /** One round of the loop of mutex_lock: the lock afterwards, and whether it was obtained. */
  ghost function LockStep(m: Lock, tid: u32): (Lock, bool) {
    if m.owner == tid then (m.(depth := Wrap(m.depth + 1)), true)
    else if m.owner == 0 then (Lock(tid, 1), true)
    else (m, false)
  }

  ghost function TryLockStep(m: Lock, tid: u32): (Lock, bool) {
    if m.owner == 0 || m.owner == tid then (Lock(tid, Wrap(m.depth + 1)), true) else (m, false)
  }

  ghost function UnlockStep(m: Lock): Lock {
    if m.depth > 1 then m.(depth := m.depth - 1) else Lock(0, 0)
  }

  class Mutex {
    var owner: u32
    var depth: u32
    const waiters: array<u32>
    var waiterCount: nat

    ghost predicate Valid()
      reads this, waiters
    {
      waiters.Length == 16 && waiterCount <= 16
    }

    ghost function Now(): Lock
      reads this
    {
      Lock(owner, depth)
    }

    constructor ()
      ensures Valid() && Now() == Lock(0, 0) && waiterCount == 0 && fresh(waiters)
    {
      owner, depth, waiterCount, waiters := 0, 0, 0, new u32[16](_ => 0);
    }

    /** One round of the loop of mutex_lock. */
    method Acquire(tid: u32) returns (got: bool)
      requires Valid()
      modifies this, waiters
      ensures Valid() && (Now(), got) == LockStep(old(Now()), tid)
      ensures (got <==> old(owner) == 0 || old(owner) == tid) && owner == (if got then tid else old(owner))
      ensures waiterCount == old(waiterCount) + (if !got && old(waiterCount) < 16 && tid != 0 then 1 else 0)
      ensures waiters[..old(waiterCount)] == old(waiters[..waiterCount])
      ensures waiterCount > old(waiterCount) ==> waiters[old(waiterCount)] == tid
    {
      if owner == tid {
        depth := Wrap(depth + 1);
        return true;
      }
      if owner == 0 {
        owner, depth := tid, 1;
        return true;
      }
      if waiterCount < 16 && tid != 0 {
        waiters[waiterCount] := tid;
        waiterCount := waiterCount + 1;
      }
      got := false;
    }

    method TryAcquire(tid: u32) returns (got: bool)
      requires Valid()
      modifies this
      ensures Valid() && (Now(), got) == TryLockStep(old(Now()), tid) && waiterCount == old(waiterCount)
      ensures (got <==> old(owner) == 0 || old(owner) == tid) && owner == (if got then tid else old(owner))
    {
      got := owner == 0 || owner == tid;
      if got { owner, depth := tid, Wrap(depth + 1); }
    }

    method Release()
      requires Valid()
      modifies this
      ensures Valid() && Now() == UnlockStep(old(Now()))
      ensures waiterCount == old(waiterCount) - (if old(depth) <= 1 && old(waiterCount) > 0 then 1 else 0)
    {
      if depth > 1 {
        depth := depth - 1;
      } else {
        owner, depth := 0, 0;
        if waiterCount > 0 { waiterCount := waiterCount - 1; }
      }
    }
  }

  /** The lock, and how many acquisitions each thread has not yet undone. */
  datatype MutexSystem = MutexSystem(m: Lock, held: map<u32, nat>)

  /** MutexWait releases in condvar_wait; its sleeper comes back through LockRound. */
  datatype MutexAction = LockRound(tid: u32) | TryLock(tid: u32) | Unlock(tid: u32) | MutexWait(tid: u32)

  ghost function Held(s: MutexSystem, tid: u32): nat {
    if tid in s.held then s.held[tid] else 0
  }

  ghost function Granted(s: MutexSystem, tid: u32, r: (Lock, bool)): MutexSystem {
    if r.1 then MutexSystem(r.0, s.held[tid := Held(s, tid) + 1]) else s.(m := r.0)
  }

  ghost function Released(s: MutexSystem, tid: u32): MutexSystem {
    MutexSystem(UnlockStep(s.m), if Held(s, tid) > 0 then s.held[tid := Held(s, tid) - 1] else s.held)
  }

  ghost function MutexApply(s: MutexSystem, a: MutexAction): MutexSystem {
    match a
    case LockRound(tid) => Granted(s, tid, LockStep(s.m, tid))
    case TryLock(tid) => Granted(s, tid, TryLockStep(s.m, tid))
    case Unlock(tid) => Released(s, tid)
    case MutexWait(tid) => Released(s, tid)
  }

  /** What a caller must respect: undo only one's own acquisitions, nest less than 2^32 deep. */
  ghost predicate Bracketed(s: MutexSystem, a: MutexAction) {
    if a.Unlock? || a.MutexWait? then Held(s, a.tid) > 0 else Held(s, a.tid) < 0xFFFF_FFFF
  }

  ghost predicate BracketedRun(s: MutexSystem, actions: seq<MutexAction>)
    decreases |actions|
  {
    actions != [] ==> Bracketed(s, actions[0]) && BracketedRun(MutexApply(s, actions[0]), actions[1..])
  }

  ghost function MutexRun(s: MutexSystem, actions: seq<MutexAction>): MutexSystem
    decreases |actions|
  {
    if actions == [] then s else MutexRun(MutexApply(s, actions[0]), actions[1..])
  }

  /** Thread tid holds the mutex exactly if it is the owner, with depth its outstanding acquisitions. */
  ghost predicate OwnerOk(s: MutexSystem, tid: u32) {
    if tid == s.m.owner && tid != 0 then Held(s, tid) == s.m.depth > 0 else Held(s, tid) == 0
  }

  ghost predicate MutexInv(s: MutexSystem) {
    (s.m.owner == 0 ==> s.m.depth == 0) && forall tid :: OwnerOk(s, tid)
  }

  /** At most one thread holds the mutex. */
  ghost predicate Exclusive(s: MutexSystem) {
    forall a, b :: Held(s, a) > 0 && Held(s, b) > 0 ==> a == b
  }

  lemma MutexStepKeepsInv(s: MutexSystem, a: MutexAction)
    requires MutexInv(s) && Bracketed(s, a) && a.tid != 0
    ensures MutexInv(MutexApply(s, a))
  {
    assert OwnerOk(s, a.tid) && OwnerOk(s, s.m.owner);
    forall tid
      ensures OwnerOk(MutexApply(s, a), tid)
    {
      assert OwnerOk(s, tid);
    }
  }

  lemma {:induction false} MutexRunKeepsInv(s: MutexSystem, actions: seq<MutexAction>)
    requires MutexInv(s) && BracketedRun(s, actions) && forall a: MutexAction :: a in actions ==> a.tid != 0
    ensures MutexInv(MutexRun(s, actions))
    decreases |actions|
  {
    if actions != [] {
      MutexStepKeepsInv(s, actions[0]);
      MutexRunKeepsInv(MutexApply(s, actions[0]), actions[1..]);
    }
  }

  /** A thread obtains the mutex exactly if no other thread holds it. */
  lemma LockGrantedIff(s: MutexSystem, tid: u32)
    requires MutexInv(s) && tid != 0 && Held(s, tid) < 0xFFFF_FFFF
    ensures var n := if forall o :: o != tid ==> Held(s, o) == 0 then Held(s, tid) + 1 else Held(s, tid);
            Held(MutexApply(s, LockRound(tid)), tid) == n && Held(MutexApply(s, TryLock(tid)), tid) == n
  {
    assert OwnerOk(s, tid) && OwnerOk(s, s.m.owner);
    if s.m.owner == 0 || s.m.owner == tid {
      forall o | o != tid
        ensures Held(s, o) == 0
      {
        assert OwnerOk(s, o);
      }
    }
  }

  /** One owner under every interleaving of threads with nonzero ids, depth its outstanding acquisitions. */
  lemma MutualExclusion(actions: seq<MutexAction>)
    requires BracketedRun(MutexSystem(Lock(0, 0), map[]), actions)
             && forall a: MutexAction :: a in actions ==> a.tid != 0
    ensures var s := MutexRun(MutexSystem(Lock(0, 0), map[]), actions);
            MutexInv(s) && Exclusive(s) && (s.m.owner != 0 ==> Held(s, s.m.owner) == s.m.depth > 0)
  {
    var s0 := MutexSystem(Lock(0, 0), map[]);
    MutexRunKeepsInv(s0, actions);
    var s := MutexRun(s0, actions);
    forall a, b | Held(s, a) > 0 && Held(s, b) > 0
      ensures a == b
    {
      assert OwnerOk(s, a) && OwnerOk(s, b);
    }
    assert OwnerOk(s, s.m.owner);
  }

  /**
   Id 0, which mutex_lock uses before the scheduler has a current task, reads as "free": the
   lock it takes is taken again by any other thread. So exclusion holds over all runs of the
   threads of a set exactly when 0 is not one of them, or is alone.
   */
  lemma ExclusionIff(threads: set<u32>)
    ensures (forall actions: seq<MutexAction> ::
               BracketedRun(MutexSystem(Lock(0, 0), map[]), actions)
               && (forall a: MutexAction :: a in actions ==> a.tid in threads)
               ==> Exclusive(MutexRun(MutexSystem(Lock(0, 0), map[]), actions)))
            <==> 0 !in threads || threads == {0}
  {
    var s0 := MutexSystem(Lock(0, 0), map[]);
    if 0 in threads && threads != {0} {
      var t :| t in threads && t != 0;
      ZeroOwnerBreaks(t);
    } else {
      forall actions: seq<MutexAction>
        | BracketedRun(s0, actions) && forall a: MutexAction :: a in actions ==> a.tid in threads
        ensures Exclusive(MutexRun(s0, actions))
      {
        if 0 !in threads { MutualExclusion(actions); } else { OnlyZero(s0, actions); }
      }
    }
  }

  lemma ZeroOwnerBreaks(t: u32)
    requires t != 0
    ensures var s0, actions := MutexSystem(Lock(0, 0), map[]), [LockRound(0), LockRound(t)];
            BracketedRun(s0, actions) && !Exclusive(MutexRun(s0, actions))
  {
    var s0, actions := MutexSystem(Lock(0, 0), map[]), [LockRound(0), LockRound(t)];
    var s1 := MutexApply(s0, LockRound(0));
    assert actions[1..] == [LockRound(t)];
    assert MutexRun(s0, actions) == MutexRun(s1, [LockRound(t)]) == MutexApply(s1, LockRound(t)) by {
      assert [LockRound(t)][1..] == [];
    }
    assert BracketedRun(s1, [LockRound(t)]);
    assert Held(MutexApply(s1, LockRound(t)), 0) == 1 && Held(MutexApply(s1, LockRound(t)), t) == 1;
  }

  lemma {:induction false} OnlyZero(s: MutexSystem, actions: seq<MutexAction>)
    requires (forall t :: t in s.held ==> t == 0) && forall a: MutexAction :: a in actions ==> a.tid == 0
    ensures Exclusive(MutexRun(s, actions))
    decreases |actions|
  {
    if actions != [] { OnlyZero(MutexApply(s, actions[0]), actions[1..]); }
  }

  /** mutex_unlock does not look at who calls it: it is sound exactly for a holder, or when nobody holds. */
  lemma UnlockSoundIff(s: MutexSystem, tid: u32)
    requires MutexInv(s)
    ensures MutexInv(Released(s, tid)) <==> Held(s, tid) > 0 || s.m.owner == 0
  {
    var s' := Released(s, tid);
    assert OwnerOk(s, tid) && OwnerOk(s, s.m.owner);
    if Held(s, tid) > 0 {
      MutexStepKeepsInv(s, Unlock(tid));
    } else if s.m.owner == 0 {
      forall t
        ensures OwnerOk(s', t)
      {
        assert OwnerOk(s, t);
      }
    } else {
      assert !OwnerOk(s', s.m.owner);
    }
  }

  /**
   condvar_wait gives the mutex up exactly when the caller holds it once; nested, the caller
   sleeps with the mutex still its own. Locking it again restores the depth.
   */
  lemma CondWaitReleasesIff(s: MutexSystem, tid: u32, other: u32)
    requires MutexInv(s) && Held(s, tid) > 0 && other != tid && other != 0
    ensures var s' := MutexApply(s, MutexWait(tid));
            (LockStep(s'.m, other).1 <==> Held(s, tid) == 1)
            && Held(MutexApply(s', LockRound(tid)), tid) == Held(s, tid)
            && MutexApply(s', LockRound(tid)).m == s.m
  {
    assert OwnerOk(s, tid);
  }

  // -------------------------------------------------------------------- condition variable

  class CondVar {
    const waiters: array<u32>
    var waiterCount: nat

    ghost predicate Valid()
      reads this, waiters
    {
      waiters.Length == 16 && waiterCount <= 16
    }

    constructor ()
      ensures Valid() && waiterCount == 0 && fresh(waiters)
    {
      waiterCount, waiters := 0, new u32[16](_ => 0);
    }

    /** condvar_wait up to its sleep: queue the task, if there is one, and give the mutex up (once). */
    method BeginWait(tid: Option<u32>, m: Mutex)
      requires Valid() && m.Valid() && m.waiters != waiters
      modifies this, waiters, m
      ensures Valid() && m.Valid() && m.Now() == UnlockStep(old(m.Now()))
      ensures waiterCount == if tid.None? then old(waiterCount) else Min(old(waiterCount) + 1, 16)
      ensures waiters[..old(waiterCount)] == old(waiters[..waiterCount])
      ensures waiterCount > old(waiterCount) ==> waiters[old(waiterCount)] == tid.value
    {
      if tid.Some? && waiterCount < 16 {
        waiters[waiterCount] := tid.value;
        waiterCount := waiterCount + 1;
      }
      m.Release();
    }

    method Signal()
      requires Valid()
      modifies this
      ensures Valid() && waiterCount == (if old(waiterCount) > 0 then old(waiterCount) - 1 else 0)
    {
      if waiterCount > 0 { waiterCount := waiterCount - 1; }
    }

    method Broadcast()
      requires Valid()
      modifies this
      ensures Valid() && waiterCount == 0
    {
      waiterCount := 0;
    }
  }

  // ------------------------------------------------------------------- reader-writer lock

  /**
   Where a thread stands. FirstReader is in sem_wait with the spinlock held, Entering and
   Left are about to release the spinlock, LastReader is about to post the semaphore. A
   spinning thread found the spinlock taken, on its way in or out.
   */
  datatype Pc = Idle | SpinningIn | FirstReader | Entering | Reading | SpinningOut | LastReader | Left | Writing

  /**
   A lock and its users, on the one processor that runs threads. `cpu` is the thread that
   runs with interrupts off and so keeps the processor: it is inside a section of the
   spinlock, or spins for it. Only a sleep in sem_wait gives the processor up before the end.
   */
  datatype Rw = Rw(spin: Option<nat>, cpu: Option<nat>, readers: int, sem: int, pcs: map<nat, Pc>)

  /** Threads take steps; an idle thread chooses what to lock. */
  datatype RwAction = ReadLock(t: nat) | WriteLock(t: nat) | Go(t: nat)

  ghost function At(s: Rw, t: nat): Pc {
    if t in s.pcs then s.pcs[t] else Idle
  }

  ghost function Move(s: Rw, t: nat, pc: Pc): Rw {
    s.(pcs := s.pcs[t := pc])
  }

  /** The processor is free for thread t. */
  ghost predicate CanRun(s: Rw, t: nat) { s.cpu.None? || s.cpu == Some(t) }

  /** The fields after taking the spinlock and changing the count of readers. */
  ghost function Counted(s: Rw, t: nat, change: int): Rw {
    s.(spin := Some(t), cpu := Some(t), readers := s.readers + change)
  }

  /** One try for the spinlock by a reader on its way in. */
  ghost function TryEnter(s: Rw, t: nat): Rw {
    if s.spin.Some? then Move(s.(cpu := Some(t)), t, SpinningIn)
    else Move(Counted(s, t, 1), t, if s.readers + 1 == 1 then FirstReader else Entering)
  }

  /** One try for the spinlock by a reader on its way out. */
  ghost function TryLeave(s: Rw, t: nat): Rw {
    if s.spin.Some? then Move(s.(cpu := Some(t)), t, SpinningOut)
    else Move(Counted(s, t, -1), t, if s.readers - 1 == 0 then LastReader else Left)
  }

  /** One step of thread t, if it has the processor; a waiting or senseless step changes nothing. */
  ghost function RwApply(s: Rw, a: RwAction): Rw {
    if !CanRun(s, a.t) then s else
      match a
      case ReadLock(t) => if At(s, t) == Idle then TryEnter(s, t) else s
      case WriteLock(t) =>
        if At(s, t) != Idle || s.sem <= 0 then s else Move(s.(sem := s.sem - 1), t, Writing)
      case Go(t) =>
        match At(s, t)
        case Idle => s
        case SpinningIn => TryEnter(s, t)
        case FirstReader =>
          if s.sem <= 0 then s.(cpu := None) else Move(s.(sem := s.sem - 1, cpu := Some(t)), t, Entering)
        case Entering => Move(s.(spin := None, cpu := None), t, Reading)
        case Reading => TryLeave(s, t)
        case SpinningOut => TryLeave(s, t)
        case LastReader => Move(s.(sem := s.sem + 1), t, Left)
        case Left => Move(s.(spin := None, cpu := None), t, Idle)
        case Writing => Move(s.(sem := s.sem + 1), t, Idle)
  }

  ghost predicate HoldsSpin(pc: Pc) { pc.FirstReader? || pc.Entering? || pc.LastReader? || pc.Left? }

  /** The readers as a group own the semaphore while one of them is here. */
  ghost predicate HoldsSem(pc: Pc) { pc.Entering? || pc.Reading? || pc.LastReader? }

  ghost predicate IsCounted(pc: Pc) { pc.FirstReader? || pc.Entering? || pc.Reading? }

  /** The places with interrupts off, but for the sleep of a first reader. */
  ghost predicate KeepsCpu(pc: Pc) { pc.SpinningIn? || pc.Entering? || pc.LastReader? || pc.Left? }

  ghost function Counting(pcs: map<nat, Pc>): set<nat> {
    set t | t in pcs && IsCounted(pcs[t])
  }

  /** The threads that the reader count counts. */
  ghost function Readers(s: Rw): set<nat> {
    Counting(s.pcs)
  }

  /** What holds of each thread; no reader ever spins on its way out. */
  ghost predicate ThreadOk(s: Rw, t: nat) {
    var pc := At(s, t);
    (HoldsSpin(pc) <==> s.spin == Some(t))
    && (KeepsCpu(pc) ==> s.cpu == Some(t))
    && (s.cpu == Some(t) ==> KeepsCpu(pc) || pc.FirstReader?)
    && (pc.SpinningIn? ==> s.spin.Some?)
    && !pc.SpinningOut?
    && (pc.FirstReader? ==> Readers(s) == {t})
    && (pc.LastReader? ==> Readers(s) == {})
    && (HoldsSem(pc) || pc.Writing? ==> s.sem == 0)
  }

  ghost predicate PairOk(s: Rw, t: nat, u: nat) {
    At(s, t).Writing? && t != u ==> !At(s, u).Writing? && !HoldsSem(At(s, u))
  }

  ghost predicate RwInv(s: Rw) {
    s.readers == |Readers(s)|
    && 0 <= s.sem <= 1
    && (s.sem == 0 ==> exists t :: HoldsSem(At(s, t)) || At(s, t).Writing?)
    && (forall t :: ThreadOk(s, t))
    && (forall t, u :: PairOk(s, t, u))
  }

  lemma ReadersMove(s: Rw, t: nat, pc: Pc)
    ensures Readers(Move(s, t, pc)) == if IsCounted(pc) then Readers(s) + {t} else Readers(s) - {t}
    ensures IsCounted(At(s, t)) <==> t in Readers(s)
    ensures |Readers(Move(s, t, pc))|
         == |Readers(s)| + (if IsCounted(pc) then 1 else 0) - (if IsCounted(At(s, t)) then 1 else 0)
    ensures |Readers(s)| == 0 <==> Readers(s) == {}
  {
    assert Counting(s.pcs[t := pc]) == if IsCounted(pc) then Counting(s.pcs) + {t} else Counting(s.pcs) - {t};
  }

  /** Readers inside, with nobody at the spinlock, own the semaphore. */
  lemma GroupHolds(s: Rw, r: nat)
    requires RwInv(s) && s.spin.None? && IsCounted(At(s, r))
    ensures At(s, r).Reading? && s.sem == 0 && forall u :: !At(s, u).Writing?
  {
    assert ThreadOk(s, r);
    forall u
      ensures !At(s, u).Writing?
    {
      assert PairOk(s, u, r);
    }
  }

  /** While a reader is inside and the processor is free, so is the spinlock. */
  lemma ReaderFindsLockFree(s: Rw, t: nat)
    requires RwInv(s) && At(s, t).Reading? && CanRun(s, t)
    ensures s.spin.None? && s.cpu.None?
  {
    assert ThreadOk(s, t);
    ReadersMove(s, t, Idle);
    assert forall u :: ThreadOk(s, u) && CanRun(s, t) && u != t && HoldsSpin(At(s, u)) ==> At(s, u).FirstReader?;
    assert s.spin.Some? ==> ThreadOk(s, s.spin.value);
  }

  /** A reader takes the spinlock and is counted. */
  lemma EnterKeepsInv(s: Rw, t: nat)
    requires RwInv(s) && At(s, t).Idle? && s.spin.None? && CanRun(s, t)
    ensures RwInv(RwApply(s, ReadLock(t)))
  {
    var s' := RwApply(s, ReadLock(t));
    ReadersMove(s, t, At(s', t));
    if s.readers > 0 {
      var r :| r in Readers(s);
      GroupHolds(s, r);
    }
    assert forall u :: u != t ==> At(s', u) == At(s, u);
    forall u
      ensures ThreadOk(s', u)
    {
      assert ThreadOk(s, u) && ThreadOk(s, t);
    }
    forall u, v
      ensures PairOk(s', u, v)
    {
      assert PairOk(s, u, v);
    }
  }

  /** A reader takes the spinlock and is no longer counted. */
  lemma LeaveKeepsInv(s: Rw, t: nat)
    requires RwInv(s) && At(s, t).Reading? && CanRun(s, t)
    ensures RwInv(RwApply(s, Go(t)))
  {
    ReaderFindsLockFree(s, t);
    var s' := RwApply(s, Go(t));
    ReadersMove(s, t, At(s', t));
    GroupHolds(s, t);
    assert s'.pcs == s.pcs[t := At(s', t)];
    assert Readers(s') == Readers(s) - {t};
    if s'.readers > 0 {
      var r :| r in Readers(s');
      ReadersMove(s, r, At(s, r));
      GroupHolds(s, r);
      assert r != t && At(s', r) == At(s, r);
      assert HoldsSem(At(s', r));
    } else {
      assert HoldsSem(At(s', t));
    }
    assert forall u :: u != t ==> At(s', u) == At(s, u);
    forall u
      ensures ThreadOk(s', u)
    {
      assert ThreadOk(s, u);
    }
    assert forall u :: !At(s', u).Writing?;
  }

  lemma NobodyHoldsSem(s: Rw)
    requires RwInv(s) && s.sem == 1
    ensures forall u :: !HoldsSem(At(s, u)) && !At(s, u).Writing?
  {
    forall u
      ensures !HoldsSem(At(s, u)) && !At(s, u).Writing?
    {
      assert ThreadOk(s, u);
    }
  }

  /** A writer gets the semaphore. */
  lemma WriterDown(s: Rw, t: nat)
    requires RwInv(s) && s.sem == 1 && CanRun(s, t) && At(s, t).Idle?
    ensures RwInv(RwApply(s, WriteLock(t)))
  {
    var s' := RwApply(s, WriteLock(t));
    ReadersMove(s, t, Writing);
    NobodyHoldsSem(s);
    assert At(s', t).Writing? && ThreadOk(s, t) && Readers(s') == Readers(s);
    forall u
      ensures u != t ==> !HoldsSem(At(s', u)) && !At(s', u).Writing?
    {
      assert u != t ==> At(s', u) == At(s, u);
    }
    forall u
      ensures ThreadOk(s', u)
    {
      assert ThreadOk(s, u);
    }
  }

  /** The first reader gets the semaphore. */
  lemma ReaderDown(s: Rw, t: nat)
    requires RwInv(s) && s.sem == 1 && CanRun(s, t) && At(s, t).FirstReader?
    ensures RwInv(RwApply(s, Go(t)))
  {
    var s' := RwApply(s, Go(t));
    ReadersMove(s, t, Entering);
    NobodyHoldsSem(s);
    assert HoldsSem(At(s', t)) && ThreadOk(s, t) && Readers(s') == Readers(s);
    forall u
      ensures !At(s', u).Writing?
    {
      assert u != t ==> At(s', u) == At(s, u);
    }
    forall u
      ensures ThreadOk(s', u)
    {
      assert ThreadOk(s, u);
    }
  }

  /** A writer or the first reader gets the semaphore. */
  lemma DownKeepsInv(s: Rw, t: nat, a: RwAction)
    requires RwInv(s) && s.sem == 1 && CanRun(s, t)
    requires (At(s, t).Idle? && a == WriteLock(t)) || (At(s, t).FirstReader? && a == Go(t))
    ensures RwInv(RwApply(s, a))
  {
    if At(s, t).Idle? { WriterDown(s, t); } else { ReaderDown(s, t); }
  }

  /** A writer or the last reader gives the semaphore back. */
  lemma UpKeepsInv(s: Rw, t: nat)
    requires RwInv(s) && (At(s, t).Writing? || At(s, t).LastReader?) && CanRun(s, t)
    ensures s.sem == 0 && RwInv(RwApply(s, Go(t)))
  {
    var s' := RwApply(s, Go(t));
    ReadersMove(s, t, At(s', t));
    assert ThreadOk(s, t);
    assert forall u :: u != t ==> At(s', u) == At(s, u);
    forall u
      ensures u != t ==> !HoldsSem(At(s, u)) && !At(s, u).Writing?
    {
      assert ThreadOk(s, u) && PairOk(s, t, u) && PairOk(s, u, t);
      ReadersMove(s, u, At(s, u));
    }
    forall u
      ensures ThreadOk(s', u)
    {
      assert ThreadOk(s, u);
    }
  }

  /** The spinlock is released. */
  lemma OffKeepsInv(s: Rw, t: nat)
    requires RwInv(s) && (At(s, t).Entering? || At(s, t).Left?)
    ensures RwInv(RwApply(s, Go(t)))
  {
    assert ThreadOk(s, t);
    var s' := RwApply(s, Go(t));
    ReadersMove(s, t, At(s', t));
    assert forall u :: u != t ==> At(s', u) == At(s, u);
    if s.sem == 0 {
      var h :| HoldsSem(At(s, h)) || At(s, h).Writing?;
      assert HoldsSem(At(s', h)) || At(s', h).Writing?;
    }
    forall u
      ensures ThreadOk(s', u)
    {
      assert ThreadOk(s, u);
    }
    forall u, v
      ensures PairOk(s', u, v)
    {
      assert PairOk(s, u, v);
    }
  }

  /** The spinlock is taken, and a reader starts to spin. */
  lemma SpinKeepsInv(s: Rw, t: nat)
    requires RwInv(s) && s.spin.Some? && CanRun(s, t) && At(s, t).Idle?
    ensures RwInv(RwApply(s, ReadLock(t)))
  {
    var s' := RwApply(s, ReadLock(t));
    assert ThreadOk(s, t);
    ReadersMove(s, t, SpinningIn);
    assert s'.pcs == s.pcs[t := SpinningIn] && s'.readers == s.readers && Readers(s') == Readers(s);
    forall u
      ensures HoldsSem(At(s', u)) == HoldsSem(At(s, u)) && At(s', u).Writing? == At(s, u).Writing?
    {
    }
    forall u
      ensures ThreadOk(s', u)
    {
      assert ThreadOk(s, u);
    }
    forall u, v
      ensures PairOk(s', u, v)
    {
      assert PairOk(s, u, v);
    }
  }

  /** The first reader goes to sleep with the spinlock held. */
  lemma SleepKeepsInv(s: Rw, t: nat)
    requires RwInv(s) && CanRun(s, t) && At(s, t).FirstReader? && s.sem == 0
    ensures RwInv(RwApply(s, Go(t)))
  {
    var s' := RwApply(s, Go(t));
    var h :| HoldsSem(At(s, h)) || At(s, h).Writing?;
    assert HoldsSem(At(s', h)) || At(s', h).Writing?;
    forall u
      ensures ThreadOk(s', u)
    {
      assert ThreadOk(s, u);
    }
    forall u, v
      ensures PairOk(s', u, v)
    {
      assert PairOk(s, u, v);
    }
  }

  lemma RwStepKeepsInv(s: Rw, a: RwAction)
    requires RwInv(s)
    ensures RwInv(RwApply(s, a))
  {
    var t := a.t;
    if RwApply(s, a) != s {
      assert ThreadOk(s, t);
      match a
      case ReadLock(_) => if s.spin.Some? { SpinKeepsInv(s, t); } else { EnterKeepsInv(s, t); }
      case WriteLock(_) => DownKeepsInv(s, t, a);
      case Go(_) =>
        match At(s, t)
        case SpinningIn => SpinChangesNothing(s, t);
        case FirstReader => if s.sem == 0 { SleepKeepsInv(s, t); } else { DownKeepsInv(s, t, a); }
        case Entering => OffKeepsInv(s, t);
        case Reading => LeaveKeepsInv(s, t);
        case LastReader => UpKeepsInv(s, t);
        case Left => OffKeepsInv(s, t);
        case Writing => UpKeepsInv(s, t);
    }
  }

  ghost function RwRun(s: Rw, actions: seq<RwAction>): Rw
    decreases |actions|
  {
    if actions == [] then s else RwRun(RwApply(s, actions[0]), actions[1..])
  }

  lemma {:induction false} RwRunKeepsInv(s: Rw, actions: seq<RwAction>)
    requires RwInv(s)
    ensures RwInv(RwRun(s, actions))
    decreases |actions|
  {
    if actions != [] {
      RwStepKeepsInv(s, actions[0]);
      RwRunKeepsInv(RwApply(s, actions[0]), actions[1..]);
    }
  }

  /** rwlock_init */
  ghost function RwInitial(): Rw { Rw(None, None, 0, 1, map[]) }

  lemma InitialInv()
    ensures RwInv(RwInitial())
  {
    assert Readers(RwInitial()) == {};
    forall t
      ensures ThreadOk(RwInitial(), t)
    {
    }
  }

  /** Under every interleaving: one writer at most, no reader beside it, and the semaphore stays 0 or 1. */
  lemma ReaderWriterExclusion(actions: seq<RwAction>)
    ensures var s := RwRun(RwInitial(), actions);
            0 <= s.sem <= 1
            && forall t, u :: At(s, t).Writing? && t != u ==> !At(s, u).Writing? && !At(s, u).Reading?
  {
    InitialInv();
    RwRunKeepsInv(RwInitial(), actions);
    var s := RwRun(RwInitial(), actions);
    forall t, u | At(s, t).Writing? && t != u
      ensures !At(s, u).Writing? && !At(s, u).Reading?
    {
      assert PairOk(s, t, u);
    }
  }

  // ------------------------------------------------------ the hang of the reader-writer lock

  /** A thread spins with interrupts off for a spinlock that another thread holds. */
  ghost predicate Stuck(s: Rw) {
    s.cpu.Some? && s.spin.Some? && (At(s, s.cpu.value).SpinningIn? || At(s, s.cpu.value).SpinningOut?)
  }

  lemma SpinChangesNothing(s: Rw, t: nat)
    requires s.spin.Some? && s.cpu == Some(t) && (At(s, t).SpinningIn? || At(s, t).SpinningOut?)
    ensures RwApply(s, Go(t)) == s
  {
    assert s.pcs[t := At(s, t)] == s.pcs;
  }

  /** Nothing ever happens again. */
  lemma {:induction false} StuckForEver(s: Rw, actions: seq<RwAction>)
    requires Stuck(s)
    ensures RwRun(s, actions) == s
    decreases |actions|
  {
    if actions != [] {
      SpinChangesNothing(s, s.cpu.value);
      StuckForEver(s, actions[1..]);
    }
  }

  /** In a hang the spinlock belongs to a first reader that sleeps in sem_wait. */
  lemma StuckMeans(s: Rw)
    requires RwInv(s) && Stuck(s)
    ensures s.spin != s.cpu && At(s, s.cpu.value).SpinningIn? && At(s, s.spin.value).FirstReader?
  {
    assert ThreadOk(s, s.cpu.value) && ThreadOk(s, s.spin.value);
  }

  /** With a writer inside, a first reader asleep and a second reader spinning, the writer never gets out. */
  lemma SecondReaderHangs(actions: seq<RwAction>)
    ensures var s := RwRun(RwInitial(), [WriteLock(0), ReadLock(1), Go(1), ReadLock(2)] + actions);
            Stuck(s) && At(s, 0).Writing? && At(s, 1).FirstReader? && At(s, 2).SpinningIn?
  {
    var all := [WriteLock(0), ReadLock(1), Go(1), ReadLock(2)] + actions;
    assert all[1..][1..][1..][1..] == actions;
    var s1 := RwApply(RwInitial(), WriteLock(0));
    var s2 := RwApply(s1, ReadLock(1));
    var s3 := RwApply(s2, Go(1));
    var s4 := RwApply(s3, ReadLock(2));
    assert RwRun(RwInitial(), all) == RwRun(s1, all[1..]) == RwRun(s2, all[1..][1..])
        == RwRun(s3, all[1..][1..][1..]) == RwRun(s4, actions);
    StuckForEver(s4, actions);
  }

  /** Calls for reading come from one set of threads, calls for writing from another. */
  ghost predicate CalledBy(actions: seq<RwAction>, reading: set<nat>, writing: set<nat>) {
    forall i :: 0 <= i < |actions| ==> Allowed(actions[i], reading, writing)
  }

  ghost predicate Allowed(a: RwAction, reading: set<nat>, writing: set<nat>) {
    (a.ReadLock? ==> a.t in reading) && (a.WriteLock? ==> a.t in writing)
  }

  /** Who can be where, when only these threads call; a first reader fell asleep because of a writer. */
  ghost predicate Traced(s: Rw, t: nat, reading: set<nat>, writing: set<nat>) {
    (At(s, t).FirstReader? || At(s, t).SpinningIn? ==> t in reading)
    && (At(s, t).Writing? ==> t in writing)
    && (At(s, t).FirstReader? && s.cpu != Some(t) ==> writing != {})
  }

  ghost predicate Traces(s: Rw, reading: set<nat>, writing: set<nat>) {
    forall t :: Traced(s, t, reading, writing)
  }

  /** Only a writer keeps a first reader waiting. */
  lemma SleeperWaitsForWriter(s: Rw, t: nat) returns (w: nat)
    requires RwInv(s) && At(s, t).FirstReader? && s.sem == 0
    ensures At(s, w).Writing?
  {
    w :| HoldsSem(At(s, w)) || At(s, w).Writing?;
    assert ThreadOk(s, t) && ThreadOk(s, w);
    ReadersMove(s, w, Idle);
  }

  lemma StepTraces(s: Rw, a: RwAction, reading: set<nat>, writing: set<nat>)
    requires RwInv(s) && Allowed(a, reading, writing) && Traces(s, reading, writing)
    ensures Traces(RwApply(s, a), reading, writing)
  {
    var s' := RwApply(s, a);
    var t := a.t;
    assert ThreadOk(s, t) && Traced(s, t, reading, writing);
    if At(s, t).FirstReader? && s.sem == 0 {
      var w := SleeperWaitsForWriter(s, t);
      assert Traced(s, w, reading, writing);
    }
    assert Traced(s', t, reading, writing);
    forall u
      ensures Traced(s', u, reading, writing)
    {
      assert ThreadOk(s, u) && Traced(s, u, reading, writing);
      assert u != t ==> At(s', u) == At(s, u);
    }
  }

  lemma {:induction false} RunTraces(s: Rw, actions: seq<RwAction>, reading: set<nat>, writing: set<nat>)
    requires RwInv(s) && CalledBy(actions, reading, writing) && Traces(s, reading, writing)
    ensures Traces(RwRun(s, actions), reading, writing)
    decreases |actions|
  {
    if actions != [] {
      assert Allowed(actions[0], reading, writing);
      assert CalledBy(actions[1..], reading, writing) by {
        forall i | 0 <= i < |actions| - 1
          ensures Allowed(actions[1..][i], reading, writing)
        {
          assert Allowed(actions[i + 1], reading, writing);
        }
      }
      StepTraces(s, actions[0], reading, writing);
      RwStepKeepsInv(s, actions[0]);
      RunTraces(RwApply(s, actions[0]), actions[1..], reading, writing);
    }
  }

  /** A writer goes in and out while a first reader sleeps, and a second reader comes before that one wakes. */
  lemma HangOfThree(w: nat, r: nat, r2: nat)
    requires w != r && r != r2
    ensures Stuck(RwRun(RwInitial(), [WriteLock(w), ReadLock(r), Go(r), Go(w), ReadLock(r2)]))
  {
    var all := [WriteLock(w), ReadLock(r), Go(r), Go(w), ReadLock(r2)];
    var s1 := RwApply(RwInitial(), WriteLock(w));
    var s2 := RwApply(s1, ReadLock(r));
    var s3 := RwApply(s2, Go(r));
    var s4 := RwApply(s3, Go(w));
    var s5 := RwApply(s4, ReadLock(r2));
    assert all[1..][1..][1..][1..][1..] == [];
    assert RwRun(RwInitial(), all) == RwRun(s1, all[1..]) == RwRun(s2, all[1..][1..])
        == RwRun(s3, all[1..][1..][1..]) == RwRun(s4, all[1..][1..][1..][1..]) == RwRun(s5, []);
  }

  /**
   The lock can hang exactly when somebody writes and at least two threads read. The writer
   may be one of those two: it only has to read before the sleeping reader is awake.
   */
  lemma HangReachableIff(reading: set<nat>, writing: set<nat>)
    ensures (exists actions :: CalledBy(actions, reading, writing) && Stuck(RwRun(RwInitial(), actions)))
       <==> writing != {} && exists r, r2 :: r in reading && r2 in reading && r != r2
  {
    if actions :| CalledBy(actions, reading, writing) && Stuck(RwRun(RwInitial(), actions)) {
      var s := RwRun(RwInitial(), actions);
      InitialInv();
      RwRunKeepsInv(RwInitial(), actions);
      RunTraces(RwInitial(), actions, reading, writing);
      StuckMeans(s);
      assert Traced(s, s.cpu.value, reading, writing) && Traced(s, s.spin.value, reading, writing);
      assert s.cpu.value in reading && s.spin.value in reading;
    }
    if w, r, r2 :| w in writing && r in reading && r2 in reading && r != r2 {
      var first, second := if r != w then r else r2, if r != w then r2 else r;
      var actions := [WriteLock(w), ReadLock(first), Go(first), Go(w), ReadLock(second)];
      HangOfThree(w, first, second);
      assert CalledBy(actions, reading, writing);
    }
  }

  /**
   A thread inside gets on with leaving exactly when it gets the processor. If another thread
   keeps that, it lets go within two steps of its own, unless it spins for ever.
   */
  lemma HolderProceeds(s: Rw, t: nat)
    requires RwInv(s) && (At(s, t).Writing? || At(s, t).Reading?)
    ensures At(RwApply(s, Go(t)), t) != At(s, t) <==> s.cpu.None?
    ensures At(s, t).Writing? && s.cpu.None? ==> At(RwApply(s, Go(t)), t) == Idle
    ensures s.cpu.Some? ==>
              var u := s.cpu.value;
              u != t && (Stuck(s) <==> RwRun(s, [Go(u)]).cpu.Some? && RwRun(s, [Go(u), Go(u)]).cpu.Some?)
  {
    assert ThreadOk(s, t);
    if s.cpu.None? && At(s, t).Reading? {
      ReaderFindsLockFree(s, t);
    }
    if s.cpu.Some? {
      var u := s.cpu.value;
      assert ThreadOk(s, u);
      var s1 := RwApply(s, Go(u));
      assert [Go(u), Go(u)][1..] == [Go(u)] && [Go(u)][1..] == [];
      assert RwRun(s, [Go(u)]) == RwRun(s1, []) == s1;
      assert RwRun(s, [Go(u), Go(u)]) == RwRun(s1, [Go(u)]) == RwRun(RwApply(s1, Go(u)), []);
      if Stuck(s) { SpinChangesNothing(s, u); }
    }
  }

  // --------------------------------------------------- everybody gets out unless it hangs

  /** How many steps a thread is away from being idle. */
  ghost function Rank(pc: Pc): nat {
    match pc
    case Idle => 0
    case Writing => 1
    case Left => 1
    case LastReader => 2
    case Reading => 3
    case SpinningOut => 3
    case Entering => 4
    case FirstReader => 5
    case SpinningIn => 6
  }

  ghost function Ranks(pcs: map<nat, Pc>): nat
    decreases |pcs|
  {
    if pcs == map[] then 0
    else
      var t :| t in pcs;
      Rank(pcs[t]) + Ranks(pcs - {t})
  }

  lemma {:induction false} RanksTake(pcs: map<nat, Pc>, t: nat)
    requires t in pcs
    ensures Ranks(pcs) == Rank(pcs[t]) + Ranks(pcs - {t})
    decreases |pcs|
  {
    var u :| u in pcs && Ranks(pcs) == Rank(pcs[u]) + Ranks(pcs - {u});
    if u != t {
      RanksTake(pcs - {u}, t);
      RanksTake(pcs - {t}, u);
      assert pcs - {u} - {t} == pcs - {t} - {u};
    }
  }

  lemma RanksMove(s: Rw, t: nat, pc: Pc)
    requires t in s.pcs
    ensures Ranks(Move(s, t, pc).pcs) == Ranks(s.pcs) - Rank(s.pcs[t]) + Rank(pc)
  {
    RanksTake(s.pcs, t);
    RanksTake(s.pcs[t := pc], t);
    assert s.pcs[t := pc] - {t} == s.pcs - {t};
  }

  ghost function Distance(s: Rw): nat {
    2 * Ranks(s.pcs) + if s.cpu.Some? then 1 else 0
  }

  ghost predicate AllIdle(s: Rw) { forall t :: At(s, t).Idle? }

  /** The thread whose turn brings the system nearer to rest. */
  lemma SomeThreadMoves(s: Rw) returns (t: nat)
    requires RwInv(s) && !Stuck(s) && !AllIdle(s)
    ensures CanRun(s, t) && t in s.pcs && s.pcs[t] != Idle && s.pcs[t] != SpinningIn
    ensures s.pcs[t].FirstReader? ==> s.sem == 1 || s.cpu == Some(t)
  {
    if s.cpu.Some? {
      t := s.cpu.value;
      assert ThreadOk(s, t);
    } else {
      t :| At(s, t) != Idle;
      assert ThreadOk(s, t);
      if At(s, t).FirstReader? && s.sem == 0 {
        t := SleeperWaitsForWriter(s, t);
      }
    }
  }

  lemma TurnShortens(s: Rw, t: nat)
    requires RwInv(s) && CanRun(s, t) && t in s.pcs && s.pcs[t] != Idle && s.pcs[t] != SpinningIn
    requires s.pcs[t].FirstReader? ==> s.sem == 1 || s.cpu == Some(t)
    ensures Distance(RwApply(s, Go(t))) < Distance(s) && !Stuck(RwApply(s, Go(t)))
  {
    var s' := RwApply(s, Go(t));
    assert ThreadOk(s, t);
    if At(s, t).Reading? { ReaderFindsLockFree(s, t); }
    RanksMove(s, t, At(s', t));
    if At(s, t).FirstReader? && s.sem == 0 {
      assert s'.pcs == s.pcs;
    } else {
      assert s'.pcs == Move(s, t, At(s', t)).pcs;
    }
  }

  /** Everybody can still get out, by threads going on with what they do, exactly if the lock does not hang. */
  lemma {:induction false} DrainsIff(s: Rw)
    requires RwInv(s)
    ensures (exists turns :: CalledBy(turns, {}, {}) && AllIdle(RwRun(s, turns))) <==> !Stuck(s)
    decreases Distance(s)
  {
    if Stuck(s) {
      forall turns
        ensures !AllIdle(RwRun(s, turns))
      {
        StuckForEver(s, turns);
      }
    } else if AllIdle(s) {
      assert CalledBy([], {}, {}) && RwRun(s, []) == s;
    } else {
      var t := SomeThreadMoves(s);
      var s' := RwApply(s, Go(t));
      TurnShortens(s, t);
      RwStepKeepsInv(s, Go(t));
      DrainsIff(s');
      var rest :| CalledBy(rest, {}, {}) && AllIdle(RwRun(s', rest));
      var turns := [Go(t)] + rest;
      assert turns[1..] == rest;
      assert RwRun(s, turns) == RwRun(s', rest);
      assert CalledBy(turns, {}, {}) by {
        forall i | 0 <= i < |turns|
          ensures Allowed(turns[i], {}, {})
        {
          assert i > 0 ==> turns[i] == rest[i - 1];
        }
      }
    }
  }

  /** Nobody waits for ever on a lock that no one will release, unless the lock hangs. */
  lemma NoDeadlock(s: Rw)
    requires RwInv(s) && !AllIdle(s)
    ensures (exists t :: At(s, t) != Idle && RwApply(s, Go(t)) != s) <==> !Stuck(s)
  {
    if Stuck(s) {
      forall t
        ensures RwApply(s, Go(t)) == s
      {
        SpinChangesNothing(s, s.cpu.value);
      }
    } else {
      var t := SomeThreadMoves(s);
      TurnShortens(s, t);
    }
  }

  /** A writer gets in exactly if nobody writes and nobody reads or holds the semaphore for the readers. */
  lemma WriterEntersIff(s: Rw, t: nat)
    requires RwInv(s) && CanRun(s, t) && At(s, t).Idle?
    ensures At(RwApply(s, WriteLock(t)), t).Writing?
       <==> forall u :: !At(s, u).Writing? && !HoldsSem(At(s, u))
  {
    forall u | At(s, u).Writing? || HoldsSem(At(s, u))
      ensures s.sem == 0
    {
      assert ThreadOk(s, u);
    }
  }

  /** The first reader gets in exactly if nobody writes. */
  lemma FirstReaderEntersIff(s: Rw, t: nat)
    requires RwInv(s) && CanRun(s, t) && At(s, t).FirstReader?
    ensures At(RwApply(s, Go(t)), t).Entering? <==> forall u :: !At(s, u).Writing?
  {
    assert ThreadOk(s, t);
    forall u
      ensures !HoldsSem(At(s, u))
    {
      assert ThreadOk(s, u);
      assert At(s, u).Reading? ==> u in Readers(s);
    }
    forall u | At(s, u).Writing?
      ensures s.sem == 0
    {
      assert ThreadOk(s, u);
    }
  }

  // ----------------------------------------------------------------------- the lock itself

  /** Its write semaphore is the semaphore above, its read semaphore is never used. */
  class RwLock {
    var spin: Option<nat>
    var readers: int
    const writeSem: Semaphore

    ghost predicate Valid()
      reads this, writeSem, writeSem.waiters
    {
      writeSem.Valid()
    }

    /** The lock's part of a system state. */
    ghost predicate Is(s: Rw)
      reads this, writeSem
    {
      spin == s.spin && readers == s.readers && writeSem.value == s.sem
    }

    constructor ()
      ensures Valid() && Is(RwInitial()) && fresh(writeSem)
    {
      spin, readers := None, 0;
      writeSem := new Semaphore(1);
    }

    /** rwlock_read_lock up to the test for the first reader; one round, if the spinlock is taken. */
    method BeginRead(ghost s: Rw, t: nat) returns (got: bool, first: bool)
      requires Valid() && Is(s) && CanRun(s, t) && (At(s, t).Idle? || At(s, t).SpinningIn?)
      modifies this
      ensures Valid() && Is(RwApply(s, if At(s, t).Idle? then ReadLock(t) else Go(t)))
      ensures At(RwApply(s, if At(s, t).Idle? then ReadLock(t) else Go(t)), t)
           == (if !got then SpinningIn else if first then FirstReader else Entering)
    {
      got, first := spin == None, false;
      if got {
        spin, readers := Some(t), readers + 1;
        first := readers == 1;
      }
    }

    /** rwlock_read_unlock up to the test for the last reader; one round, if the spinlock is taken. */
    method BeginReadUnlock(ghost s: Rw, t: nat) returns (got: bool, last: bool)
      requires Valid() && Is(s) && CanRun(s, t) && (At(s, t).Reading? || At(s, t).SpinningOut?)
      modifies this
      ensures Valid() && Is(RwApply(s, Go(t)))
      ensures At(RwApply(s, Go(t)), t) == (if !got then SpinningOut else if last then LastReader else Left)
    {
      got, last := spin == None, false;
      if got {
        spin, readers := Some(t), readers - 1;
        last := readers == 0;
      }
    }

    /** One round of sem_wait on the write semaphore, for a writer or for the first reader. */
    method WaitRound(ghost s: Rw, t: nat, tid: Option<u32>) returns (got: bool)
      requires Valid() && Is(s) && CanRun(s, t) && (At(s, t).Idle? || At(s, t).FirstReader?)
      modifies writeSem, writeSem.waiters
      ensures Valid() && (writeSem.Now(), got) == DownStep(old(writeSem.Now()), tid)
      ensures Is(RwApply(s, if At(s, t).Idle? then WriteLock(t) else Go(t)))
      ensures got <==> At(RwApply(s, if At(s, t).Idle? then WriteLock(t) else Go(t)), t) != At(s, t)
    {
      got := writeSem.Down(tid);
    }

    /** sem_post on the write semaphore, by a writer or the last reader. */
    method Post(ghost s: Rw, t: nat)
      requires Valid() && Is(s) && CanRun(s, t) && (At(s, t).Writing? || At(s, t).LastReader?) && RwInv(s)
      modifies writeSem
      ensures Valid() && writeSem.Now() == UpStep(old(writeSem.Now())) && Is(RwApply(s, Go(t)))
    {
      writeSem.Up();
    }

    /** Releasing the spinlock ends rwlock_read_lock and rwlock_read_unlock. */
    method EndSection(ghost s: Rw, t: nat)
      requires Valid() && Is(s) && CanRun(s, t) && (At(s, t).Entering? || At(s, t).Left?)
      modifies this
      ensures Valid() && Is(RwApply(s, Go(t)))
    {
      spin := None;
    }
  }
}
