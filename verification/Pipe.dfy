/**
 The anonymous pipe of kernal/ipc/pipe.c: a 4096-byte ring with wrapping 32-bit indices.

 The pipe's mutex is held from one condvar_wait (or entry) to the next (or return), so the
 code between two such points is one atomic section. The class below gives the sections over
 the ring; the system at the end lets any number of calls interleave them in any order.
 */
module Pipe {
  import opened Words

  // ------------------------------------------------------------- the sections as functions

  /** What the ring holds, oldest byte first, and the open ends. */
  datatype State = State(contents: seq<u8>, readers: nat, writers: nat, used: bool)

  datatype ReadOutcome = Got(n: nat) | EndOfFile | ReadWaits

  datatype WriteOutcome = Wrote | Broken | WriteWaits

  ghost function ReadSize(s: State, len: nat): nat { Min(len, |s.contents|) }

  /** pipe_read from taking the lock (again) to giving it up. */
  ghost function ReadStep(s: State, len: nat): (State, ReadOutcome) {
    if s.contents == [] then
      (s, if s.writers == 0 then EndOfFile else ReadWaits)
    else
      (s.(contents := s.contents[ReadSize(s, len)..]), Got(ReadSize(s, len)))
  }

  ghost function WriteSize(s: State, todo: nat): nat
    requires |s.contents| <= 4096
  {
    Min(todo, 4096 - |s.contents|)
  }

  /** pipe_write from taking the lock (again) to giving it up, with todo still to be stored. */
  ghost function WriteStep(s: State, todo: seq<u8>): (State, WriteOutcome)
    requires |s.contents| <= 4096
  {
    var n := WriteSize(s, |todo|);
    (s.(contents := s.contents + todo[..n]),
     if n == |todo| then Wrote else if s.readers == 0 then Broken else WriteWaits)
  }

  ghost function CloseReadStep(s: State): State {
    var r := if s.readers > 0 then s.readers - 1 else 0;
    s.(readers := r, used := s.used && !(r == 0 && s.writers == 0))
  }

  ghost function CloseWriteStep(s: State): State {
    var w := if s.writers > 0 then s.writers - 1 else 0;
    s.(writers := w, used := s.used && !(s.readers == 0 && w == 0))
  }

  // ---------------------------------------------------------------------------- the ring

  /** pos % PIPE_BUF_SIZE */
  function Cell(pos: nat): (c: nat)
    ensures c < 4096
  {
    pos % 4096
  }

  /** Different offsets below the ring size are different cells. */
  lemma CellsApart(a: nat, b: nat)
    requires a < b < a + 4096
    ensures Cell(a) != Cell(b)
  {
    var q := b / 4096 - a / 4096;
    assert b - a == 4096 * q + (b % 4096 - a % 4096);
  }

  /** Index wrap-around at 2^32 does not disturb the cell, because 4096 divides 2^32. */
  lemma CellWraps(a: nat)
    ensures Cell(Wrap(a)) == Cell(a)
  {
    var q := a / 0x1_0000_0000;
    assert a == Wrap(a) + 4096 * (0x10_0000 * q);
  }

  lemma WrapAdds(a: nat, b: nat)
    ensures Wrap(Wrap(a) + b) == Wrap(a + b)
  {
    var q := a / 0x1_0000_0000;
    assert a + b == (Wrap(a) + b) + 0x1_0000_0000 * q;
  }

  lemma CellShifts(a: nat, b: nat)
    ensures Cell(Wrap(a) + b) == Cell(a + b)
  {
    CellWraps(Wrap(a) + b);
    WrapAdds(a, b);
    CellWraps(a + b);
  }

  /** The cells from index start on hold the bytes of c. */
  ghost predicate Holds(buf: seq<u8>, start: nat, c: seq<u8>)
    requires |buf| == 4096
  {
    forall i :: 0 <= i < |c| ==> c[i] == buf[Cell(start + i)]
  }

  /** Dropping n bytes at the front: the rest starts at the advanced index. */
  lemma Shifted(buf: seq<u8>, start: nat, c: seq<u8>, n: nat)
    requires |buf| == 4096 && n <= |c| && Holds(buf, start, c)
    ensures Holds(buf, Wrap(start + n), c[n..])
  {
    forall i | 0 <= i < |c| - n
      ensures c[n..][i] == buf[Cell(Wrap(start + n) + i)]
    {
      CellShifts(start + n, i);
      assert c[n..][i] == c[n + i];
    }
  }

  /** Storing one more byte behind the bytes c. */
  lemma Appended(buf: seq<u8>, start: nat, c: seq<u8>, b: u8)
    requires |buf| == 4096 && |c| < 4096 && Holds(buf, start, c)
    ensures Holds(buf[Cell(start + |c|) := b], start, c + [b])
  {
    forall i | 0 <= i < |c|
      ensures c[i] == buf[Cell(start + |c|) := b][Cell(start + i)]
    {
      CellsApart(start + i, start + |c|);
    }
  }

  class Ring {
    const buf: array<u8>
    var readPos: u32
    var writePos: u32
    var count: u32
    var refRead: u32
    var refWrite: u32
    var used: bool
    ghost var contents: seq<u8>

    /** At most 4096 bytes; the indices differ by their number, modulo 2^32. */
    ghost predicate Valid()
      reads this, buf
    {
      buf.Length == 4096 && count == |contents| <= 4096
      && writePos == Wrap(readPos + count)
      && Holds(buf[..], readPos, contents)
    }

    ghost function Now(): State
      reads this
    {
      State(contents, refRead, refWrite, used)
    }

    /** pipe_create, for one slot of the pipe table. */
    constructor ()
      ensures Valid() && fresh(buf) && Now() == State([], 1, 1, true)
    {
      buf := new u8[4096](_ => 0);
      readPos, writePos, count, refRead, refWrite, used := 0, 0, 0, 1, 1, true;
      contents := [];
    }

    /** The copy loop of pipe_read: n bytes leave the ring from its read end. */
    method TakeBytes(dst: array<u8>, n: u32)
      requires Valid() && n <= count && n <= dst.Length && dst != buf
      modifies this`readPos, dst
      ensures dst[..n] == contents[..n] && dst[n..] == old(dst[n..])
      ensures readPos == Wrap(old(readPos) + n)
    {
      ghost var start := readPos;
      var i: u32 := 0;
      while i < n
        invariant 0 <= i <= n && readPos == Wrap(start + i)
        invariant dst[..i] == contents[..i] && dst[n..] == old(dst[n..])
      {
        CellWraps(start + i);
        WrapAdds(start + i, 1);
        dst[i] := buf[Cell(readPos)];
        readPos := Wrap(readPos + 1);
        assert contents[..i + 1] == contents[..i] + [contents[i]];
        i := i + 1;
      }
    }

    /** The copy loop of pipe_write: n bytes of src, from index from on, enter at the write end. */
    method PutBytes(src: seq<u8>, from: u32, n: u32)
      requires Valid() && count + n <= 4096 && from + n <= |src|
      modifies this`writePos, buf
      ensures Holds(buf[..], readPos, contents + src[from..from + n])
      ensures writePos == Wrap(readPos + count + n)
    {
      var i: u32 := 0;
      while i < n
        invariant 0 <= i <= n && writePos == Wrap(readPos + count + i)
        invariant Holds(buf[..], readPos, contents + src[from..from + i])
      {
        PutOne(contents + src[from..from + i], src[from + i]);
        assert src[from..from + i] + [src[from + i]] == src[from..from + i + 1];
        assert contents + src[from..from + i] + [src[from + i]] == contents + src[from..from + i + 1];
        i := i + 1;
      }
    }

    /** One byte is stored behind the bytes c. */
    method PutOne(ghost c: seq<u8>, b: u8)
      requires buf.Length == 4096 && |c| < 4096 && Holds(buf[..], readPos, c) && writePos == Wrap(readPos + |c|)
      modifies this`writePos, buf
      ensures Holds(buf[..], readPos, c + [b]) && writePos == Wrap(readPos + |c| + 1)
    {
      CellWraps(readPos + |c|);
      WrapAdds(readPos + |c|, 1);
      Appended(buf[..], readPos, c, b);
      buf[Cell(writePos)] := b;
      writePos := Wrap(writePos + 1);
    }

    /** One section of pipe_read. */
    method Read(dst: array<u8>, len: u32) returns (o: ReadOutcome)
      requires Valid() && len <= dst.Length && dst != buf
      modifies this, dst
      ensures Valid() && (Now(), o) == ReadStep(old(Now()), len)
      ensures o.Got? <==> old(contents) != []
      ensures o.Got? ==> o.n <= len && (o.n == len || contents == [])
      ensures o.EndOfFile? <==> old(contents) == [] && refWrite == 0
      ensures o.Got? ==> old(contents) == dst[..o.n] + contents && dst[o.n..] == old(dst[o.n..])
      ensures !o.Got? ==> dst[..] == old(dst[..])
    {
      if count == 0 {
        if refWrite == 0 { return EndOfFile; }
        return ReadWaits;
      }
      var n := if len < count then len else count;
      Shifted(buf[..], readPos, contents, n);
      TakeBytes(dst, n);
      WrapAdds(old(readPos) + n, count - n);
      count, contents := count - n, contents[n..];
      return Got(n);
    }

    /**
     One section of pipe_write, of which written bytes are already stored: its loop runs
     until everything is stored or the ring is full.
     */
    method Write(src: seq<u8>, written: u32) returns (o: WriteOutcome, stored: u32)
      requires Valid() && written <= |src| < 0x1_0000_0000
      modifies this, buf
      ensures Valid() && (Now(), o) == WriteStep(old(Now()), src[written..])
      ensures stored == written + WriteSize(old(Now()), |src| - written)
      ensures written <= stored <= |src| && contents == old(contents) + src[written..stored]
      ensures o.Wrote? <==> stored == |src|
      ensures stored < |src| ==> |contents| == 4096 && (o.Broken? <==> refRead == 0)
    {
      stored := written;
      while stored < |src|
        invariant Valid() && written <= stored <= |src|
        invariant stored - written <= WriteSize(old(Now()), |src| - written)
        invariant Now() == old(Now()).(contents := old(contents) + src[written..stored])
        invariant stored > written ==> stored == written + WriteSize(old(Now()), |src| - written)
      {
        if count == 4096 {
          assert src[written..][..stored - written] == src[written..stored];
          if refRead == 0 { return Broken, stored; }
          return WriteWaits, stored;
        }
        var space := 4096 - count;
        var chunk := if |src| - stored < space then |src| - stored else space;
        PutBytes(src, stored, chunk);
        assert src[written..stored] + src[stored..stored + chunk] == src[written..stored + chunk];
        count, contents := count + chunk, contents + src[stored..stored + chunk];
        stored := stored + chunk;
      }
      assert src[written..][..stored - written] == src[written..stored];
      o := Wrote;
    }

    /** The first section of pipe_write, which refuses a pipe without readers. */
    method BeginWrite(src: seq<u8>) returns (o: WriteOutcome, stored: u32)
      requires Valid() && |src| < 0x1_0000_0000
      modifies this, buf
      ensures Valid()
      ensures old(refRead) == 0 ==> o == Broken && stored == 0 && Now() == old(Now())
      ensures old(refRead) > 0 ==> (Now(), o) == WriteStep(old(Now()), src) && stored == WriteSize(old(Now()), |src|)
    {
      if refRead == 0 { return Broken, 0; }
      o, stored := Write(src, 0);
      assert src[0..] == src;
    }

    method CloseRead() returns (dead: bool)
      requires Valid()
      modifies this
      ensures Valid() && Now() == CloseReadStep(old(Now())) && (dead <==> refRead == refWrite == 0)
      ensures refRead == (if old(refRead) > 0 then old(refRead) - 1 else 0) && refWrite == old(refWrite)
    {
      if refRead > 0 { refRead := refRead - 1; }
      dead := refRead == 0 && refWrite == 0;
      if dead { used := false; }
    }

    method CloseWrite() returns (dead: bool)
      requires Valid()
      modifies this
      ensures Valid() && Now() == CloseWriteStep(old(Now())) && (dead <==> refRead == refWrite == 0)
      ensures refWrite == (if old(refWrite) > 0 then old(refWrite) - 1 else 0) && refRead == old(refRead)
    {
      if refWrite > 0 { refWrite := refWrite - 1; }
      dead := refRead == 0 && refWrite == 0;
      if dead { used := false; }
    }
  }

  // ---------------------------------------------------------- many calls, any interleaving

  /** A log of byte chunks, latest last, each with the call that stored or fetched it. */
  datatype Log = Empty | Entry(before: Log, call: nat, bytes: seq<u8>)

  /** All bytes of a log, in order. */
  ghost function Values(log: Log): seq<u8> {
    match log
    case Empty => []
    case Entry(before, _, bytes) => Values(before) + bytes
  }

  /** The bytes of call c in a log, in order. */
  ghost function Of(log: Log, c: nat): seq<u8> {
    match log
    case Empty => []
    case Entry(before, call, bytes) => if call == c then Of(before, c) + bytes else Of(before, c)
  }

  /** A call in progress, or its result: what a read got, whether a write returned its length or -1. */
  datatype Call =
    | Reading(len: nat)
    | Writing(data: seq<u8>, entered: bool, written: nat)
    | HasRead(len: nat, result: seq<u8>)
    | HasWritten(data: seq<u8>, ok: bool, written: nat)

  /** The pipe, every call made so far, and two logs: the bytes accepted and the bytes delivered. */
  datatype System = System(pipe: State, calls: map<nat, Call>, accepted: Log, delivered: Log)

  datatype Action =
    | BeginRead(call: nat, len: nat) | BeginWrite(call: nat, data: seq<u8>) | Section(call: nat) | CloseR | CloseW

  ghost function Initial(): System { System(State([], 1, 1, true), map[], Empty, Empty) }

  ghost function ReadSection(s: System, c: nat, len: nat): System {
    var (pipe, o) := ReadStep(s.pipe, len);
    if o.ReadWaits? then s
    else
      var bytes := s.pipe.contents[..ReadSize(s.pipe, len)];
      System(pipe, s.calls[c := HasRead(len, bytes)], s.accepted, Entry(s.delivered, c, bytes))
  }

  ghost function WriteSection(s: System, c: nat, data: seq<u8>, entered: bool, written: nat): System
    requires |s.pipe.contents| <= 4096 && written <= |data|
  {
    if !entered && s.pipe.readers == 0 then
      s.(calls := s.calls[c := HasWritten(data, false, written)])
    else
      var (pipe, o) := WriteStep(s.pipe, data[written..]);
      var n := WriteSize(s.pipe, |data| - written);
      var call := if o.WriteWaits? then Writing(data, true, written + n) else HasWritten(data, o.Wrote?, written + n);
      System(pipe, s.calls[c := call], Entry(s.accepted, c, data[written..][..n]), s.delivered)
  }

  /** One action of one thread; an action that does not apply changes nothing. */
  ghost function Apply(s: System, a: Action): System
    requires Inv(s)
  {
    match a
    case BeginRead(c, len) => if c in s.calls then s else s.(calls := s.calls[c := Reading(len)])
    case BeginWrite(c, data) => if c in s.calls then s else s.(calls := s.calls[c := Writing(data, false, 0)])
    case CloseR => s.(pipe := CloseReadStep(s.pipe))
    case CloseW => s.(pipe := CloseWriteStep(s.pipe))
    case Section(c) =>
      if c !in s.calls then s
      else
        assert CallOk(s, c);
        match s.calls[c]
        case Reading(len) => ReadSection(s, c, len)
        case Writing(data, entered, written) => WriteSection(s, c, data, entered, written)
        case _ => s
  }

  /** How a call relates to the bytes it stored and the bytes it fetched. */
  ghost predicate Fits(call: Call, stored: seq<u8>, fetched: seq<u8>) {
    match call
    case Reading(_) => stored == fetched == []
    case Writing(data, entered, written) =>
      written <= |data| && stored == data[..written] && fetched == []
          && (if entered then written < |data| else written == 0)
    case HasRead(len, result) => stored == [] && fetched == result && |result| <= len
    case HasWritten(data, ok, written) =>
      written <= |data| && stored == data[..written] && fetched == [] && (ok ==> written == |data|)
  }

  /** What the logs say about one call. */
  ghost predicate CallOk(s: System, c: nat) {
    if c in s.calls then Fits(s.calls[c], Of(s.accepted, c), Of(s.delivered, c))
    else Of(s.accepted, c) == Of(s.delivered, c) == []
  }

  ghost predicate Inv(s: System) {
    |s.pipe.contents| <= 4096
    && Values(s.delivered) + s.pipe.contents == Values(s.accepted)
    && (s.pipe.used <==> s.pipe.readers > 0 || s.pipe.writers > 0)
    && forall c :: CallOk(s, c)
  }

  /** Calls that did nothing in a section keep their bytes. */
  lemma OthersKept(s: System, s': System, d: nat)
    requires CallOk(s, d) && (d in s.calls <==> d in s'.calls) && (d in s.calls ==> s'.calls[d] == s.calls[d])
    requires Of(s'.accepted, d) == Of(s.accepted, d) && Of(s'.delivered, d) == Of(s.delivered, d)
    ensures CallOk(s', d)
  {
  }

  lemma ReadSectionKeepsCall(s: System, c: nat, d: nat)
    requires CallOk(s, c) && CallOk(s, d) && c in s.calls && s.calls[c].Reading?
    ensures CallOk(ReadSection(s, c, s.calls[c].len), d)
  {
    var len := s.calls[c].len;
    var s' := ReadSection(s, c, len);
    var bytes := s.pipe.contents[..ReadSize(s.pipe, len)];
    if d != c {
      OthersKept(s, s', d);
    } else if s' != s {
      assert Fits(HasRead(len, bytes), Of(s'.accepted, d), [] + bytes);
    }
  }

  lemma ReadSectionKeepsInv(s: System, c: nat)
    requires Inv(s) && c in s.calls && s.calls[c].Reading?
    ensures Inv(ReadSection(s, c, s.calls[c].len))
  {
    forall d
      ensures CallOk(ReadSection(s, c, s.calls[c].len), d)
    {
      assert CallOk(s, c) && CallOk(s, d);
      ReadSectionKeepsCall(s, c, d);
    }
    var bytes := s.pipe.contents[..ReadSize(s.pipe, s.calls[c].len)];
    assert s.pipe.contents == bytes + s.pipe.contents[|bytes|..];
  }

  lemma WriteSectionKeepsCall(s: System, c: nat, d: nat)
    requires |s.pipe.contents| <= 4096 && CallOk(s, c) && CallOk(s, d)
    requires c in s.calls && s.calls[c].Writing? && s.calls[c].written <= |s.calls[c].data|
    ensures CallOk(WriteSection(s, c, s.calls[c].data, s.calls[c].entered, s.calls[c].written), d)
  {
    var data, written := s.calls[c].data, s.calls[c].written;
    var n := WriteSize(s.pipe, |data| - written);
    var s' := WriteSection(s, c, data, s.calls[c].entered, written);
    if d != c {
      OthersKept(s, s', d);
    } else {
      assert data[..written] + data[written..][..n] == data[..written + n];
      if !s.calls[c].entered && s.pipe.readers == 0 {
        assert Fits(s'.calls[d], data[..written], []);
      } else {
        assert Fits(s'.calls[d], data[..written + n], []);
      }
    }
  }

  lemma WriteSectionKeepsInv(s: System, c: nat)
    requires Inv(s) && c in s.calls && s.calls[c].Writing? && s.calls[c].written <= |s.calls[c].data|
    ensures Inv(WriteSection(s, c, s.calls[c].data, s.calls[c].entered, s.calls[c].written))
  {
    var data, written := s.calls[c].data, s.calls[c].written;
    var s' := WriteSection(s, c, data, s.calls[c].entered, written);
    forall d
      ensures CallOk(s', d)
    {
      assert CallOk(s, c) && CallOk(s, d);
      WriteSectionKeepsCall(s, c, d);
    }
    var bytes := data[written..][..WriteSize(s.pipe, |data| - written)];
    assert Values(s.delivered) + (s.pipe.contents + bytes) == Values(s.accepted) + bytes;
  }

  lemma ApplyKeepsInv(s: System, a: Action)
    requires Inv(s)
    ensures Inv(Apply(s, a))
  {
    if a.Section? && a.call in s.calls && s.calls[a.call].Reading? {
      ReadSectionKeepsInv(s, a.call);
    } else if a.Section? && a.call in s.calls && s.calls[a.call].Writing? {
      assert CallOk(s, a.call);
      WriteSectionKeepsInv(s, a.call);
    } else {
      forall d
        ensures CallOk(Apply(s, a), d)
      {
        assert CallOk(s, d);
      }
    }
  }

  ghost function Run(s: System, actions: seq<Action>): System
    requires Inv(s)
    decreases |actions|
  {
    if actions == [] then s
    else
      ApplyKeepsInv(s, actions[0]);
      Run(Apply(s, actions[0]), actions[1..])
  }

  lemma {:induction false} RunKeepsInv(s: System, actions: seq<Action>)
    requires Inv(s)
    ensures Inv(Run(s, actions))
    decreases |actions|
  {
    if actions != [] {
      ApplyKeepsInv(s, actions[0]);
      RunKeepsInv(Apply(s, actions[0]), actions[1..]);
    }
  }

  /**
   First in, first out under every interleaving: the bytes delivered, followed by the ring,
   are the bytes accepted; each write call contributed a prefix of its data, in order and
   completely if it returned its length; each read call got exactly its part.
   */
  lemma FifoUnderEveryInterleaving(actions: seq<Action>)
    ensures Inv(Initial())
    ensures var s := Run(Initial(), actions);
            Values(s.delivered) + s.pipe.contents == Values(s.accepted) && |s.pipe.contents| <= 4096
            && forall c :: c in s.calls ==>
                 match s.calls[c]
                 case HasWritten(data, ok, written) =>
                   written <= |data| && Of(s.accepted, c) == (if ok then data else data[..written])
                 case Writing(data, _, written) => written <= |data| && Of(s.accepted, c) == data[..written]
                 case HasRead(len, result) => Of(s.delivered, c) == result
                 case Reading(_) => Of(s.delivered, c) == []
  {
    RunKeepsInv(Initial(), actions);
    var s := Run(Initial(), actions);
    forall c | c in s.calls
      ensures CallOk(s, c)
    {
    }
  }

  /** A read ends with end-of-file exactly when no writer is left and everything accepted was delivered. */
  lemma EndOfFileMeansDrained(s: System, c: nat)
    requires Inv(s) && c in s.calls && s.calls[c].Reading?
    ensures ReadStep(s.pipe, s.calls[c].len).1.EndOfFile?
            <==> s.pipe.writers == 0 && Values(s.delivered) == Values(s.accepted)
  {
    assert |Values(s.delivered)| + |s.pipe.contents| == |Values(s.accepted)|;
    if s.pipe.contents == [] { assert Values(s.delivered) + [] == Values(s.delivered); }
  }

  /** The bytes accepted and not yet delivered. */
  ghost function Pending(s: System): seq<u8>
    requires Inv(s)
  {
    assert |Values(s.delivered)| <= |Values(s.accepted)|;
    Values(s.accepted)[|Values(s.delivered)|..]
  }

  /**
   What a section of a read returns: nothing yet exactly if nothing is pending and a write end
   is open; otherwise the first bytes pending, as many as asked for or all there are.
   */
  lemma ReadReturns(s: System, c: nat)
    requires Inv(s) && c in s.calls && s.calls[c].Reading?
    ensures Inv(Apply(s, Section(c)))
    ensures var len, s' := s.calls[c].len, Apply(s, Section(c));
            (c in s'.calls && s'.calls[c].Reading? <==> Pending(s) == [] && s.pipe.writers > 0)
            && (c in s'.calls && s'.calls[c].HasRead? ==>
                  s'.calls[c] == HasRead(len, Pending(s)[..Min(len, |Pending(s)|)])
                  && Pending(s') == Pending(s)[Min(len, |Pending(s)|)..])
  {
    assert CallOk(s, c);
    assert Pending(s) == s.pipe.contents;
    ApplyKeepsInv(s, Section(c));
    var s' := Apply(s, Section(c));
    assert Values(s'.delivered) + s'.pipe.contents == Values(s'.accepted);
    assert Pending(s') == s'.pipe.contents;
  }

  /**
   After any run, a read of at least one byte returns nothing exactly if no write end is open
   and every byte accepted has been delivered.
   */
  lemma EmptyResultIff(actions: seq<Action>, c: nat)
    ensures Inv(Initial())
    ensures var s := Run(Initial(), actions);
            Inv(s) && (c in s.calls && s.calls[c].Reading? && s.calls[c].len > 0 ==>
                         (Apply(s, Section(c)).calls[c] == HasRead(s.calls[c].len, [])
                          <==> s.pipe.writers == 0 && Values(s.delivered) == Values(s.accepted)))
  {
    RunKeepsInv(Initial(), actions);
    var s := Run(Initial(), actions);
    if c in s.calls && s.calls[c].Reading? && s.calls[c].len > 0 {
      ReadReturns(s, c);
      assert Values(s.delivered) == Values(s.accepted) <==> s.pipe.contents == [] by {
        if s.pipe.contents == [] { assert Values(s.delivered) + [] == Values(s.delivered); }
      }
      assert Pending(s) == s.pipe.contents;
    }
  }

  /**
   What a section of a write comes to. It is done exactly if the rest fits; else the ring is
   full, and the call fails without a reader and waits with one. A call that has not begun is
   refused without a reader.
   */
  lemma WriteReturns(s: System, c: nat)
    requires Inv(s) && c in s.calls && s.calls[c].Writing?
    ensures Inv(Apply(s, Section(c)))
    ensures var Writing(data, entered, written) := s.calls[c];
            var s' := Apply(s, Section(c));
            written <= |data|
            && if !entered && s.pipe.readers == 0 then s' == s.(calls := s.calls[c := HasWritten(data, false, 0)])
               else if |s.pipe.contents| + |data| - written <= 4096 then
                 s'.calls[c] == HasWritten(data, true, |data|) && Pending(s') == Pending(s) + data[written..]
               else
                 var n := 4096 - |s.pipe.contents|;
                 |s'.pipe.contents| == 4096 && Pending(s') == Pending(s) + data[written..written + n]
                 && s'.calls[c] == if s.pipe.readers == 0 then HasWritten(data, false, written + n)
                                   else Writing(data, true, written + n)
  {
    assert CallOk(s, c);
    ApplyKeepsInv(s, Section(c));
    var s' := Apply(s, Section(c));
    assert Pending(s) == s.pipe.contents;
    assert Values(s'.delivered) + s'.pipe.contents == Values(s'.accepted);
    assert Pending(s') == s'.pipe.contents;
    var Writing(data, _, written) := s.calls[c];
    var n := 4096 - |s.pipe.contents|;
    assert written + n <= |data| ==> data[written..][..n] == data[written..written + n];
    assert data[written..][..|data| - written] == data[written..];
  }

  lemma {:induction false} EndsFrom(s: System, actions: seq<Action>)
    requires Inv(s) && s.pipe.readers <= 1 && s.pipe.writers <= 1
    ensures Run(s, actions).pipe.readers == if CloseR in actions then 0 else s.pipe.readers
    ensures Run(s, actions).pipe.writers == if CloseW in actions then 0 else s.pipe.writers
    decreases |actions|
  {
    if actions != [] {
      ApplyKeepsInv(s, actions[0]);
      EndsFrom(Apply(s, actions[0]), actions[1..]);
      assert actions == [actions[0]] + actions[1..];
    }
  }

  /** Each end is open until it is closed, and the pipe is in use until both are. */
  lemma EndsCloseIff(actions: seq<Action>)
    ensures Inv(Initial())
    ensures var p := Run(Initial(), actions).pipe;
            (p.readers == 0 <==> CloseR in actions) && (p.writers == 0 <==> CloseW in actions)
            && (p.used <==> !(CloseR in actions && CloseW in actions))
  {
    EndsFrom(Initial(), actions);
    RunKeepsInv(Initial(), actions);
  }

  ghost predicate Drained(s: System) {
    s.pipe.writers == 0 && s.pipe.contents == [] && forall c :: c in s.calls ==> !s.calls[c].Writing?
  }

  lemma DrainedStep(s: System, a: Action)
    requires Inv(s) && Drained(s) && !a.BeginWrite?
    ensures Drained(Apply(s, a)) && Apply(s, a).accepted == s.accepted
    ensures forall c :: Of(Apply(s, a).delivered, c) == Of(s.delivered, c)
  {
    if a.Section? { assert CallOk(s, a.call); }
  }

  /**
   End-of-file is final: once no write end is open, no write is under way and the ring is
   empty, every later read returns no byte, as long as nobody starts writing.
   */
  lemma {:induction false} EndOfFileIsFinal(s: System, actions: seq<Action>)
    requires Inv(s) && Drained(s) && forall a :: a in actions ==> !a.BeginWrite?
    ensures Drained(Run(s, actions)) && Run(s, actions).accepted == s.accepted
    ensures forall c :: Of(Run(s, actions).delivered, c) == Of(s.delivered, c)
    ensures forall c ::
              c in Run(s, actions).calls && c !in s.calls && Run(s, actions).calls[c].HasRead?
              ==> Run(s, actions).calls[c].result == []
    decreases |actions|
  {
    RunKeepsInv(s, actions);
    if actions != [] {
      ApplyKeepsInv(s, actions[0]);
      DrainedStep(s, actions[0]);
      EndOfFileIsFinal(Apply(s, actions[0]), actions[1..]);
    }
    var t := Run(s, actions);
    forall c | c in t.calls && c !in s.calls && t.calls[c].HasRead?
      ensures t.calls[c].result == []
    {
      assert CallOk(s, c) && CallOk(t, c);
    }
  }

  /** The call is asleep in condvar_wait, and its next check would put it to sleep again. */
  ghost predicate Blocked(s: System, c: nat)
    requires Inv(s) && c in s.calls
  {
    Apply(s, Section(c)).calls[c] == s.calls[c]
  }

  /** Exactly when a reader and when a writer is blocked; hence never both. */
  lemma NeverBothBlocked(s: System, r: nat, w: nat)
    requires Inv(s) && r in s.calls && s.calls[r].Reading? && w in s.calls && s.calls[w].Writing?
    ensures Blocked(s, r) <==> s.pipe.contents == [] && s.pipe.writers > 0
    ensures Blocked(s, w) <==> |s.pipe.contents| == 4096 && s.pipe.readers > 0 && s.calls[w].entered
    ensures !(Blocked(s, r) && Blocked(s, w))
  {
    assert CallOk(s, w);
  }
}
