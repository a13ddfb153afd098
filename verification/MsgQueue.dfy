/**
 One message queue of kernal/ipc/msgqueue.c: 32 slots kept in order of descending priority
 by shifting. Its mutex makes the code between two waits one atomic section.
 */
module MsgQueue {
  import opened Words

  /** The first len bytes of a slot, with its priority. */
  datatype Msg = Msg(bytes: seq<u8>, priority: u8)

  // ----------------------------------------------------------------- order of the queue

  ghost predicate Sorted(q: seq<Msg>) {
    forall i, j :: 0 <= i < j < |q| ==> q[i].priority >= q[j].priority
  }

  /** The messages of one priority, in sequence order. */
  ghost function Level(q: seq<Msg>, p: u8): seq<Msg> {
    if q == [] then []
    else (if q[0].priority == p then [q[0]] else []) + Level(q[1..], p)
  }

  lemma Associative(a: seq<Msg>, b: seq<Msg>, c: seq<Msg>)
    ensures a + (b + c) == a + b + c
  {
  }

  lemma {:induction false} LevelConcat(a: seq<Msg>, b: seq<Msg>, p: u8)
    ensures Level(a + b, p) == Level(a, p) + Level(b, p)
  {
    if a == [] {
      assert a + b == b;
    } else {
      LevelConcat(a[1..], b, p);
      assert (a + b)[1..] == a[1..] + b;
      var head := if a[0].priority == p then [a[0]] else [];
      Associative(head, Level(a[1..], p), Level(b, p));
    }
  }

  lemma {:induction false} LevelEmptyIff(q: seq<Msg>, p: u8)
    ensures Level(q, p) == [] <==> forall i :: 0 <= i < |q| ==> q[i].priority != p
  {
    if q != [] {
      LevelEmptyIff(q[1..], p);
      assert forall i :: 0 < i < |q| ==> q[i] == q[1..][i - 1];
    }
  }

  /** The order is determined by its levels: sorted queues with the same levels are equal. */
  lemma {:induction false} SortedUnique(a: seq<Msg>, b: seq<Msg>)
    requires Sorted(a) && Sorted(b) && forall p :: Level(a, p) == Level(b, p)
    ensures a == b
  {
    if a == [] || b == [] {
      if a != [] { LevelEmptyIff(a, a[0].priority); LevelEmptyIff(b, a[0].priority); }
      if b != [] { LevelEmptyIff(a, b[0].priority); LevelEmptyIff(b, b[0].priority); }
    } else {
      LevelEmptyIff(a, b[0].priority);
      LevelEmptyIff(b, a[0].priority);
      LevelEmptyIff(a, a[0].priority);
      LevelEmptyIff(b, b[0].priority);
      assert a[0].priority == b[0].priority;
      assert Level(a, a[0].priority)[0] == a[0] && Level(b, a[0].priority)[0] == b[0];
      forall p
        ensures Level(a[1..], p) == Level(b[1..], p)
      {
        var first := if p == a[0].priority then [a[0]] else [];
        assert Level(a, p) == first + Level(a[1..], p) && Level(b, p) == first + Level(b[1..], p);
        assert Level(a[1..], p) == Level(a, p)[|first|..];
        assert Level(b[1..], p) == Level(b, p)[|first|..];
      }
      SortedUnique(a[1..], b[1..]);
      assert a == [a[0]] + a[1..] && b == [b[0]] + b[1..];
    }
  }

  /** Where mq_send inserts: before the first message of lower priority. */
  ghost predicate IsSlotFor(q: seq<Msg>, priority: u8, ins: nat) {
    ins <= |q| && (forall i :: 0 <= i < ins ==> q[i].priority >= priority) && (ins < |q| ==> q[ins].priority < priority)
  }

  ghost predicate Inserted(q: seq<Msg>, m: Msg, r: seq<Msg>) {
    exists ins: nat :: IsSlotFor(q, m.priority, ins) && r == q[..ins] + [m] + q[ins..]
  }

  lemma InsertKeepsSorted(q: seq<Msg>, m: Msg, ins: nat)
    requires Sorted(q) && IsSlotFor(q, m.priority, ins)
    ensures Sorted(q[..ins] + [m] + q[ins..])
    ensures forall i :: 0 <= i < |q[ins..]| ==> q[ins..][i].priority < m.priority
  {
    forall i | 0 <= i < |q[ins..]|
      ensures q[ins..][i].priority < m.priority
    {
      assert i > 0 ==> q[ins].priority >= q[ins + i].priority;
    }
  }

  lemma InsertLevel(a: seq<Msg>, m: Msg, b: seq<Msg>, p: u8)
    requires forall i :: 0 <= i < |b| ==> b[i].priority != m.priority
    ensures Level(a + [m] + b, p) == if p == m.priority then Level(a + b, p) + [m] else Level(a + b, p)
  {
    LevelConcat(a + [m], b, p);
    LevelConcat(a, [m], p);
    LevelConcat(a, b, p);
    LevelEmptyIff(b, m.priority);
    assert Level([m], p) == if p == m.priority then [m] else [];
  }

  lemma Cut(q: seq<Msg>, k: nat)
    requires k <= |q|
    ensures q[..k] + q[k..] == q
  {
  }

  /** Insertion keeps the order and puts the message last among those of its priority. */
  lemma InsertSpec(q: seq<Msg>, m: Msg, r: seq<Msg>, p: u8)
    requires Sorted(q) && Inserted(q, m, r)
    ensures Sorted(r) && |r| == |q| + 1
    ensures Level(r, p) == if p == m.priority then Level(q, p) + [m] else Level(q, p)
  {
    var ins: nat :| IsSlotFor(q, m.priority, ins) && r == q[..ins] + [m] + q[ins..];
    InsertKeepsSorted(q, m, ins);
    InsertLevel(q[..ins], m, q[ins..], p);
    Cut(q, ins);
    assert Level(r, p) == Level(q[..ins] + [m] + q[ins..], p);
  }

  /** Taking the head: it is the first of its level, and no message has a higher priority. */
  lemma TakeSpec(q: seq<Msg>, p: u8)
    requires Sorted(q) && q != []
    ensures Sorted(q[1..]) && forall i :: 0 <= i < |q| ==> q[i].priority <= q[0].priority
    ensures Level(q, p) == (if p == q[0].priority then [q[0]] else []) + Level(q[1..], p)
  {
  }

  // ------------------------------------------------------------------- the queue in place

  class Queue {
    const msgs: array<Msg>
    var count: nat

    ghost predicate Valid()
      reads this, msgs
    {
      msgs.Length == 32 && count <= 32 && Sorted(msgs[..count])
    }

    ghost function Now(): seq<Msg>
      requires count <= msgs.Length
      reads this, msgs
    {
      msgs[..count]
    }

    /** mq_open, for a queue that did not exist yet. */
    constructor ()
      ensures Valid() && Now() == [] && fresh(msgs)
    {
      msgs, count := new Msg[32](_ => Msg([], 0)), 0;
    }

    /** The search loop of mq_send. */
    method FindSlot(priority: u8) returns (ins: nat)
      requires Valid()
      ensures IsSlotFor(Now(), priority, ins)
    {
      ins := 0;
      while ins < count
        invariant ins <= count && forall i :: 0 <= i < ins ==> msgs[i].priority >= priority
      {
        if msgs[ins].priority < priority { return; }
        ins := ins + 1;
      }
    }

    /** The loop of mq_send that makes room at ins. */
    method ShiftUp(ins: nat)
      requires msgs.Length == 32 && ins <= count < 32
      modifies msgs
      ensures msgs[..ins] == old(msgs[..ins]) && msgs[ins + 1..count + 1] == old(msgs[ins..count])
    {
      var i := count;
      while i > ins
        invariant ins <= i <= count
        invariant forall k :: 0 <= k <= i ==> msgs[k] == old(msgs[k])
        invariant forall k :: i < k <= count ==> msgs[k] == old(msgs[k - 1])
      {
        msgs[i] := msgs[i - 1];
        i := i - 1;
      }
    }

    /** The loop of mq_recv that closes the gap at the head. */
    method ShiftDown()
      requires msgs.Length == 32 && 0 < count <= 32
      modifies msgs
      ensures msgs[..count - 1] == old(msgs[1..count])
    {
      var i := 1;
      while i < count
        invariant 1 <= i <= count
        invariant forall k :: 0 <= k < i - 1 ==> msgs[k] == old(msgs[k + 1])
        invariant forall k :: i - 1 <= k < count ==> msgs[k] == old(msgs[k])
      {
        msgs[i - 1] := msgs[i];
        i := i + 1;
      }
    }

    /** One section of mq_send: it waits exactly when all 32 slots are taken; long messages are cut to 512 bytes. */
    method Send(data: seq<u8>, priority: u8) returns (sent: bool)
      requires Valid()
      modifies this, msgs
      ensures Valid() && (sent <==> |old(Now())| < 32)
      ensures !sent ==> Now() == old(Now())
      ensures sent ==> Inserted(old(Now()), Msg(data[..Min(|data|, 512)], priority), Now())
    {
      if count >= 32 { return false; }
      var len := if |data| > 512 then 512 else |data|;
      ghost var q, m := Now(), Msg(data[..len], priority);
      var ins := FindSlot(priority);
      ShiftUp(ins);
      msgs[ins] := Msg(data[..len], priority);
      count := count + 1;
      sent := true;
      assert Now() == q[..ins] + [m] + q[ins..];
      InsertSpec(q, m, Now(), priority);
    }

    /** As much of the message as the buffer takes. */
    method CopyOut(bytes: seq<u8>, buf: array<u8>, maxlen: u32) returns (n: nat)
      requires maxlen <= buf.Length
      modifies buf
      ensures n == Min(|bytes|, maxlen) && buf[..n] == bytes[..n] && buf[n..] == old(buf[n..])
    {
      n := if |bytes| < maxlen then |bytes| else maxlen;
      forall i | 0 <= i < n { buf[i] := bytes[i]; }
    }

    /**
     One section of mq_recv or mq_tryrecv: nothing to take exactly when the queue is empty;
     a message longer than the buffer is cut, and its rest is gone.
     */
    method Receive(buf: array<u8>, maxlen: u32) returns (head: Option<Msg>, n: nat)
      requires Valid() && maxlen <= buf.Length
      modifies this, msgs, buf
      ensures Valid() && (head.None? <==> old(Now()) == [])
      ensures head.None? ==> Now() == old(Now()) && n == 0 && buf[..] == old(buf[..])
      ensures head.Some?
              ==> head.value == old(Now())[0] && Now() == old(Now())[1..]
                  && n == Min(|head.value.bytes|, maxlen)
                  && buf[..n] == head.value.bytes[..n] && buf[n..] == old(buf[n..])
    {
      if count == 0 { return None, 0; }
      head := Some(msgs[0]);
      n := CopyOut(msgs[0].bytes, buf, maxlen);
      ShiftDown();
      count := count - 1;
      assert Now() == old(Now())[1..];
    }
  }

  // --------------------------------------------------------- any senders, any receivers

  /** The queue, everything sent and everything received so far. */
  datatype System = System(queue: seq<Msg>, sent: seq<Msg>, received: seq<Msg>)

  /** Attempts of any threads; an attempt that has to wait changes nothing. */
  datatype Action = Send(m: Msg) | Receive

  ghost predicate Step(s: System, a: Action, t: System) {
    match a
    case Send(m) =>
      if |s.queue| >= 32 then t == s
      else Inserted(s.queue, m, t.queue) && t.sent == s.sent + [m] && t.received == s.received
    case Receive =>
      if s.queue == [] then t == s
      else t == System(s.queue[1..], s.sent, s.received + [s.queue[0]])
  }

  /** A run: one state more than actions, each step allowed. */
  ghost predicate IsRun(states: seq<System>, actions: seq<Action>) {
    |states| == |actions| + 1 && states[0] == System([], [], [])
    && forall i :: 0 <= i < |actions| ==> Step(states[i], actions[i], states[i + 1])
  }

  /** Sorted and never past the slots; each level was received in the order it was sent, without loss or duplicate. */
  ghost predicate Inv(s: System) {
    Sorted(s.queue) && |s.queue| <= 32 && forall p :: LevelKept(s, p)
  }

  ghost predicate LevelKept(s: System, p: u8) {
    Level(s.sent, p) == Level(s.received, p) + Level(s.queue, p)
  }

  lemma SendKept(s: System, m: Msg, t: System, p: u8)
    requires LevelKept(s, p) && Sorted(s.queue) && |s.queue| < 32 && Inserted(s.queue, m, t.queue)
    requires t.sent == s.sent + [m] && t.received == s.received
    ensures LevelKept(t, p) && Sorted(t.queue) && |t.queue| <= 32
  {
    InsertSpec(s.queue, m, t.queue, p);
    LevelConcat(s.sent, [m], p);
    assert Level([m], p) == if p == m.priority then [m] else [];
  }

  lemma ReceiveKept(s: System, p: u8)
    requires LevelKept(s, p) && Sorted(s.queue) && s.queue != []
    ensures LevelKept(System(s.queue[1..], s.sent, s.received + [s.queue[0]]), p) && Sorted(s.queue[1..])
  {
    TakeSpec(s.queue, p);
    LevelConcat(s.received, [s.queue[0]], p);
    assert Level([s.queue[0]], p) == if p == s.queue[0].priority then [s.queue[0]] else [];
  }

  lemma StepKeepsInv(s: System, a: Action, t: System)
    requires Inv(s) && Step(s, a, t)
    ensures Inv(t)
  {
    if t != s {
      forall p
        ensures LevelKept(t, p) && Sorted(t.queue) && |t.queue| <= 32
      {
        assert LevelKept(s, p);
        match a {
          case Send(m) => SendKept(s, m, t, p);
          case Receive => ReceiveKept(s, p);
        }
      }
      assert LevelKept(t, 0);
    }
  }

  /** The invariant holds in every state of every run. */
  lemma {:induction false} RunKeepsInv(states: seq<System>, actions: seq<Action>, i: nat)
    requires IsRun(states, actions) && i < |states|
    ensures Inv(states[i])
  {
    if i > 0 {
      RunKeepsInv(states, actions, i - 1);
      StepKeepsInv(states[i - 1], actions[i - 1], states[i]);
    }
  }

  /** The messages sent and not received, in the order they were sent. */
  ghost predicate IsPending(s: System, pending: seq<Msg>) {
    forall p :: Level(s.sent, p) == Level(s.received, p) + Level(pending, p)
  }

  lemma SuffixUnique(a: seq<Msg>, b: seq<Msg>, c: seq<Msg>)
    requires a + b == a + c
    ensures b == c
  {
    assert b == (a + b)[|a|..] && c == (a + c)[|a|..];
  }

  /**
   In every reachable state a receive takes the earliest message of the highest priority
   among those still pending, however the pending ones are listed.
   */
  lemma ReceiveTakesEarliestOfHighest(states: seq<System>, actions: seq<Action>, i: nat, pending: seq<Msg>)
    requires IsRun(states, actions) && i < |actions| && actions[i].Receive? && IsPending(states[i], pending)
    ensures states[i].queue == [] <==> pending == []
    ensures pending != [] ==>
              var m := states[i].queue[0];
              states[i + 1].received == states[i].received + [m]
              && (forall k :: 0 <= k < |pending| ==> pending[k].priority <= m.priority)
              && Level(pending, m.priority) != [] && Level(pending, m.priority)[0] == m
  {
    var s := states[i];
    RunKeepsInv(states, actions, i);
    forall p
      ensures Level(pending, p) == Level(s.queue, p)
    {
      assert LevelKept(s, p);
      SuffixUnique(Level(s.received, p), Level(pending, p), Level(s.queue, p));
    }
    SameLevels(s.queue, pending);
  }

  lemma SameLevels(q: seq<Msg>, pending: seq<Msg>)
    requires Sorted(q) && forall p :: Level(pending, p) == Level(q, p)
    ensures q == [] <==> pending == []
    ensures q != [] ==> forall k :: 0 <= k < |pending| ==> pending[k].priority <= q[0].priority
    ensures q != [] ==> Level(pending, q[0].priority) != [] && Level(pending, q[0].priority)[0] == q[0]
  {
    forall k | 0 <= k < |pending|
      ensures q != [] && pending[k].priority <= q[0].priority
    {
      assert Level(pending, pending[k].priority) == Level(q, pending[k].priority);
      PriorityBound(pending, q, k);
    }
    if q != [] {
      assert Level(pending, q[0].priority) == Level(q, q[0].priority);
      HeadLevel(pending, q);
    }
  }

  lemma HeadLevel(pending: seq<Msg>, q: seq<Msg>)
    requires q != [] && Level(pending, q[0].priority) == Level(q, q[0].priority)
    ensures pending != [] && Level(pending, q[0].priority) != [] && Level(pending, q[0].priority)[0] == q[0]
  {
    LevelEmptyIff(pending, q[0].priority);
  }

  lemma PriorityBound(pending: seq<Msg>, q: seq<Msg>, k: nat)
    requires Sorted(q) && k < |pending| && Level(pending, pending[k].priority) == Level(q, pending[k].priority)
    ensures q != [] && pending[k].priority <= q[0].priority
  {
    var i := LevelOccurs(pending, q, k);
  }

  /** A priority that occurs in one queue occurs in the other. */
  lemma LevelOccurs(pending: seq<Msg>, q: seq<Msg>, k: nat) returns (i: nat)
    requires k < |pending| && Level(pending, pending[k].priority) == Level(q, pending[k].priority)
    ensures i < |q| && q[i].priority == pending[k].priority
  {
    LevelEmptyIff(pending, pending[k].priority);
    LevelEmptyIff(q, pending[k].priority);
    i :| 0 <= i < |q| && q[i].priority == pending[k].priority;
  }
}
