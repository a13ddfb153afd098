/**
 Host names in DNS messages: kernal/net/dns.c writes them as length-prefixed labels and
 reads them back, following compression pointers (sections 3.1 and 4.1.4 of RFC 1035).
 */
module Dns {
  import opened Words

  const DOT: u8 := 46

  // ------------------------------------------------------------------------------- encoding

  /** Index of the first dot from k on, or the length. */
  function DotFrom(h: seq<u8>, k: nat): (d: nat)
    requires k <= |h|
    ensures k <= d <= |h|
    decreases |h| - k
  {
    if k == |h| || h[k] == DOT then k else DotFrom(h, k + 1)
  }

  /** The first label, and what follows it and its dot. */
  function First(h: seq<u8>): seq<u8> {
    h[..DotFrom(h, 0)]
  }

  function Rest(h: seq<u8>): (r: seq<u8>)
    ensures h != [] ==> |r| < |h|
  {
    var d := DotFrom(h, 0);
    if d < |h| then h[d + 1..] else []
  }

  /** A label in wire form: its length is cut to eight bits. */
  function Wire(l: seq<u8>): (w: seq<u8>)
    ensures |w| == 1 + |l| % 256
  {
    [|l| % 256] + l[..|l| % 256]
  }

  /** The labels of a host name in wire form, without the root label. */
  function Body(h: seq<u8>): seq<u8>
    decreases |h|
  {
    if h == [] then [] else Wire(First(h)) + Body(Rest(h))
  }

  function Encode(h: seq<u8>): seq<u8> {
    Body(h) + [0]
  }

  /** dns_encode_name; the host name is the C string up to its terminator. */
  method EncodeName(h: seq<u8>, out: array<u8>) returns (n: nat)
    requires |Encode(h)| <= out.Length
    modifies out
    ensures n == |Encode(h)| && out[..n] == Encode(h) && out[n..] == old(out[n..])
  {
    var p := 0;
    n := 0;
    while p < |h|
      invariant p <= |h| && n <= |Body(h)| && Body(h) == out[..n] + Body(h[p..])
      invariant out[|Body(h)| + 1..] == old(out[|Body(h)| + 1..])
      decreases |h| - p
    {
      n, p := EncodeLabel(h, p, out, n);
    }
    out[n] := 0;
    n := n + 1;
  }

  /** One round of the encoder: the label at p goes behind the n bytes already written. */
  method EncodeLabel(h: seq<u8>, p: nat, out: array<u8>, n: nat) returns (m: nat, next: nat)
    requires p < |h| && n <= |Body(h)| < out.Length && Body(h) == out[..n] + Body(h[p..])
    modifies out
    ensures p < next <= |h| && m <= |Body(h)| && Body(h) == out[..m] + Body(h[next..])
    ensures out[|Body(h)| + 1..] == old(out[|Body(h)| + 1..])
  {
    var dot := FindDot(h, p);
    next := if dot < |h| then dot + 1 else dot;
    NextLabel(h, p, dot, next, out[..n]);
    m := PutLabel(h[p..dot], out, n);
    KeptBehind(out[..], old(out[..]), m, |Body(h)| + 1);
  }

  lemma KeptBehind(a: seq<u8>, b: seq<u8>, m: nat, k: nat)
    requires |a| == |b| && m <= k <= |a| && a[m..] == b[m..]
    ensures a[k..] == b[k..]
  {
    assert a[k..] == a[m..][k - m..] && b[k..] == b[m..][k - m..];
  }

  /** What one round of the encoder writes behind what is done. */
  lemma NextLabel(h: seq<u8>, p: nat, dot: nat, next: nat, done: seq<u8>)
    requires p < |h| && p <= dot <= |h| && dot - p == DotFrom(h[p..], 0) && next == (if dot < |h| then dot + 1 else dot)
    requires Body(h) == done + Body(h[p..])
    ensures Body(h) == done + Wire(h[p..dot]) + Body(h[next..])
  {
    LabelAt(h, p, dot, next);
    BodyStep(h[p..]);
    Regroup(Body(h), done, Body(h[p..]), Wire(h[p..dot]), Body(h[next..]));
  }

  lemma LabelAt(h: seq<u8>, p: nat, dot: nat, next: nat)
    requires p < |h| && p <= dot <= |h| && dot - p == DotFrom(h[p..], 0) && next == (if dot < |h| then dot + 1 else dot)
    ensures First(h[p..]) == h[p..dot] && Rest(h[p..]) == h[next..]
  {
  }

  lemma BodyStep(h: seq<u8>)
    requires h != []
    ensures Body(h) == Wire(First(h)) + Body(Rest(h))
  {
  }

  lemma Regroup(whole: seq<u8>, a: seq<u8>, bc: seq<u8>, b: seq<u8>, c: seq<u8>)
    requires whole == a + bc && bc == b + c
    ensures whole == a + b + c
  {
  }

  /** The search for the end of the label that starts at p. */
  method FindDot(h: seq<u8>, p: nat) returns (dot: nat)
    requires p < |h|
    ensures p <= dot <= |h| && dot - p == DotFrom(h[p..], 0)
  {
    dot := p;
    while dot < |h| && h[dot] != DOT
      invariant p <= dot <= |h| && DotFrom(h[p..], dot - p) == DotFrom(h[p..], 0)
    {
      dot := dot + 1;
    }
  }

  /** One label behind the n bytes already written. */
  method PutLabel(l: seq<u8>, out: array<u8>, n: nat) returns (m: nat)
    requires n + |Wire(l)| <= out.Length
    modifies out
    ensures m == n + |Wire(l)| && out[..m] == old(out[..n]) + Wire(l) && out[m..] == old(out[m..])
  {
    var len := |l| % 256;
    out[n] := len;
    m := n + 1;
    var i := 0;
    while i < len
      invariant 0 <= i <= len && out[..n + 1 + i] == old(out[..n]) + [len] + l[..i]
      invariant out[n + 1 + len..] == old(out[n + 1 + len..])
    {
      out[m + i] := l[i];
      i := i + 1;
    }
    m := m + len;
  }

  // ------------------------------------------------------------------------------- decoding

  /** Position, whether a pointer was followed, the bytes consumed so far, the name so far. */
  datatype Cursor = Cursor(pos: nat, jumped: bool, consumed: nat, name: seq<u8>)

  /** Overrun: a label ran past the packet, which the code does not check. */
  datatype Outcome = Running | Finished(consumed: nat, name: seq<u8>) | Overrun

  /** How many characters of a label of length len still fit the output. */
  function Room(name: seq<u8>, len: nat, max: nat): (k: nat)
    ensures k <= len
  {
    if |name| + 1 >= max then 0 else Min(len, max - 1 - |name|)
  }

  function WithDot(name: seq<u8>, max: nat): seq<u8> {
    if |name| < max then name + [DOT] else name
  }

  /** The name with k more characters, as the copy loop leaves it. */
  function Copied(name: seq<u8>, pkt: seq<u8>, from: nat, k: nat): seq<u8>
    requires from + k <= |pkt|
    decreases k, |pkt|
  {
    if k == 0 then name else Copied(name, pkt, from, k - 1) + [pkt[from + k - 1]]
  }

  lemma {:induction false} CopiedIs(name: seq<u8>, pkt: seq<u8>, from: nat, k: nat)
    requires from + k <= |pkt|
    ensures Copied(name, pkt, from, k) == name + pkt[from..from + k]
  {
    if k > 0 {
      CopiedIs(name, pkt, from, k - 1);
      assert pkt[from..from + k] == pkt[from..from + (k - 1)] + [pkt[from + k - 1]];
    }
  }

  /** The trailing dot is dropped. */
  function Stripped(name: seq<u8>): seq<u8> {
    if name != [] && name[|name| - 1] == DOT then name[..|name| - 1] else name
  }

  /** The position a pointer names. */
  function Target(hi: u8, lo: u8): nat {
    (hi as int % 64) * 256 + lo
  }

  /** One round of the loop of dns_decode_name, or its end. */
  datatype Round = Move(c: Cursor) | Stop(o: Outcome)

  predicate Sane(offset: nat, c: Cursor) {
    !c.jumped ==> offset <= c.pos
  }

  function Jump(offset: nat, c: Cursor, target: nat): (r: Cursor)
    requires Sane(offset, c)
    ensures r.jumped
  {
    Cursor(target, true, if c.jumped then c.consumed else c.pos - offset + 2, c.name)
  }

  function Next(pkt: seq<u8>, offset: nat, max: nat, c: Cursor): (r: Round)
    requires Sane(offset, c)
    ensures r.Move? ==> Sane(offset, r.c)
  {
    if c.pos >= |pkt| then Stop(Finished(c.consumed, Stripped(c.name)))
    else
      var len := pkt[c.pos];
      if len >= 0xC0 then
        if c.pos + 1 >= |pkt| then Stop(Finished(c.consumed, Stripped(c.name)))
        else Move(Jump(offset, c, Target(len, pkt[c.pos + 1])))
      else if len == 0 then
        Stop(Finished(if c.jumped then c.consumed else c.pos - offset + 1, Stripped(c.name)))
      else
        var k := Room(c.name, len, max);
        if c.pos + 1 + k > |pkt| then Stop(Overrun)
        else Move(c.(pos := c.pos + 1 + k, name := WithDot(Copied(c.name, pkt, c.pos + 1, k), max)))
  }

  /** The loop, for at most fuel rounds. */
  function Run(pkt: seq<u8>, offset: nat, max: nat, c: Cursor, fuel: nat): Outcome
    requires Sane(offset, c)
    decreases fuel, |pkt|
  {
    if fuel == 0 then Running
    else
      var r := Next(pkt, offset, max, c);
      if r.Stop? then r.o else Run(pkt, offset, max, r.c, fuel - 1)
  }

  function Decode(pkt: seq<u8>, offset: nat, max: nat, fuel: nat): Outcome {
    Run(pkt, offset, max, Cursor(offset, false, 0, []), fuel)
  }

  /**
   dns_decode_name, stopped after fuel rounds. The name and its terminator never leave the
   out_max bytes of the output; an output of no bytes still gets the terminator.
   */
  method DecodeName(pkt: seq<u8>, offset: u32, out: array<u8>, max: u32, fuel: nat) returns (o: Outcome)
    requires |pkt| < 0x1_0000_0000 && max <= out.Length && out.Length > 0
    modifies out
    ensures o == Decode(pkt, offset, max, fuel)
    ensures o.Finished? ==> |o.name| <= (if max > 0 then max - 1 else 0)
    ensures o.Finished? ==> out[..|o.name|] == o.name && out[|o.name|] == 0
    ensures max > 0 ==> out[max..] == old(out[max..])
    ensures max == 0 ==> out[1..] == old(out[1..])
  {
    var pos: nat, jumped, consumed: nat, n: nat, rounds := offset, false, 0, 0, fuel;
    var more := true;
    while more
      invariant n <= max && (n == max > 0 ==> out[n - 1] == DOT) && out[max..] == old(out[max..])
      invariant var c := Cursor(pos, jumped, consumed, out[..n]);
                Sane(offset, c) && Decode(pkt, offset, max, fuel)
                == if more then Run(pkt, offset, max, c, rounds) else Finished(consumed, Stripped(c.name))
      decreases rounds, more
    {
      if rounds == 0 { return Running; }
      rounds := rounds - 1;
      var overrun;
      more, overrun, pos, jumped, consumed, n := OneRound(pkt, offset, pos, jumped, consumed, out, n, max);
      if overrun { return Overrun; }
    }
    ghost var name := out[..n];
    if n > 0 && out[n - 1] == DOT { n := n - 1; }
    assert Stripped(name) == out[..n];
    out[n] := 0;
    o := Finished(consumed, out[..n]);
  }

  /** One round of the loop; without more, it is left. */
  method OneRound(pkt: seq<u8>, offset: u32, pos: nat, jumped: bool, consumed: nat, out: array<u8>, n: nat, max: u32)
    returns (more: bool, overrun: bool, pos': nat, jumped': bool, consumed': nat, n': nat)
    requires max <= out.Length && n <= max && (n == max > 0 ==> out[n - 1] == DOT)
    requires Sane(offset, Cursor(pos, jumped, consumed, out[..n]))
    modifies out
    ensures n' <= max && (n' == max > 0 ==> out[n' - 1] == DOT) && out[max..] == old(out[max..])
    ensures Sane(offset, Cursor(pos', jumped', consumed', out[..n']))
    ensures Next(pkt, offset, max, Cursor(pos, jumped, consumed, old(out[..n])))
            == if overrun then Stop(Overrun)
               else if more then Move(Cursor(pos', jumped', consumed', out[..n']))
               else Stop(Finished(consumed', Stripped(out[..n'])))
  {
    more, overrun, pos', jumped', consumed', n' := false, false, pos, jumped, consumed, n;
    if pos >= |pkt| { return; }
    var len := pkt[pos];
    if len >= 0xC0 {
      if pos + 1 >= |pkt| { return; }
      if !jumped { consumed' := pos - offset + 2; }
      more, jumped', pos' := true, true, Target(len, pkt[pos + 1]);
    } else if len == 0 {
      if !jumped { consumed' := pos - offset + 1; }
    } else if pos + 1 + Room(out[..n], len, max) > |pkt| {
      overrun := true;
    } else {
      more := true;
      pos', n' := CopyLabel(pkt, pos + 1, len, out, n, max);
    }
  }

  /** The copy of one label, with the dot after it. */
  method CopyLabel(pkt: seq<u8>, from: nat, len: u8, out: array<u8>, at: nat, max: u32) returns (pos: nat, n: nat)
    requires max <= out.Length && at <= max && len > 0 && (at == max > 0 ==> out[at - 1] == DOT)
    requires from + Room(out[..at], len, max) <= |pkt|
    modifies out
    ensures pos == from + Room(old(out[..at]), len, max) && n <= max && (n == max > 0 ==> out[n - 1] == DOT)
    ensures out[..n] == WithDot(Copied(old(out[..at]), pkt, from, pos - from), max) && out[max..] == old(out[max..])
  {
    ghost var k := Room(out[..at], len, max);
    var i := 0;
    pos, n := from, at;
    while i < len && n + 1 < max
      invariant 0 <= i <= len && pos == from + i && n == at + i && i <= k && n <= max
      invariant out[..n] == old(out[..at]) + pkt[from..pos] && out[max..] == old(out[max..])
      invariant i > 0 ==> n < max
    {
      out[n] := pkt[pos];
      n, pos, i := n + 1, pos + 1, i + 1;
    }
    CopiedIs(old(out[..at]), pkt, from, pos - from);
    if n < max {
      out[n] := DOT;
      n := n + 1;
    }
  }

  // ----------------------------------------------------------------------------- round trips

  /** A host name from its labels. */
  ghost function Join(ls: seq<seq<u8>>): seq<u8> {
    if ls == [] then [] else if |ls| == 1 then ls[0] else ls[0] + [DOT] + Join(ls[1..])
  }

  /** The labels in wire form. */
  ghost function WireAll(ls: seq<seq<u8>>): seq<u8> {
    if ls == [] then [] else Wire(ls[0]) + WireAll(ls[1..])
  }

  /** Labels that are not empty and not too long to be told from a pointer; RFC 1035 allows 63. */
  ghost predicate Fit(ls: seq<seq<u8>>) {
    forall i :: 0 <= i < |ls| ==> 1 <= |ls[i]| < 0xC0
  }

  /** Labels as a host name has them: they hold no dot. */
  ghost predicate Proper(ls: seq<seq<u8>>) {
    Fit(ls) && forall i :: 0 <= i < |ls| ==> DOT !in ls[i]
  }

  lemma {:induction false} DotIs(h: seq<u8>, k: nat, d: nat)
    requires k <= d <= |h| && (forall i :: k <= i < d ==> h[i] != DOT) && (d < |h| ==> h[d] == DOT)
    ensures DotFrom(h, k) == d
    decreases d - k
  {
    if k < d { DotIs(h, k + 1, d); }
  }

  lemma JoinSplits(ls: seq<seq<u8>>)
    requires ls != [] && Proper(ls)
    ensures Join(ls) != [] && First(Join(ls)) == ls[0] && Rest(Join(ls)) == Join(ls[1..])
  {
    var h := Join(ls);
    assert forall i :: 0 <= i < |ls[0]| ==> h[i] == ls[0][i] && ls[0][i] in ls[0];
    DotIs(h, 0, |ls[0]|);
    assert |ls| > 1 ==> h[|ls[0]| + 1..] == Join(ls[1..]);
  }

  /** The encoder writes the labels of the name, in order. */
  lemma {:induction false} BodyOfJoin(ls: seq<seq<u8>>)
    requires Proper(ls)
    ensures Body(Join(ls)) == WireAll(ls)
  {
    if ls != [] {
      JoinSplits(ls);
      BodyOfJoin(ls[1..]);
    }
  }

  /** Labels as section 3.1 of RFC 1035 writes them: a byte for the length, then the characters. */
  ghost function LabelBytes(ls: seq<seq<u8>>): seq<u8>
    requires forall i :: 0 <= i < |ls| ==> |ls[i]| < 0x100
  {
    if ls == [] then [] else [|ls[0]|] + ls[0] + LabelBytes(ls[1..])
  }

  /** The encoding of a name is that of its labels, and a zero byte. */
  lemma EncodesLabels(ls: seq<seq<u8>>)
    requires Proper(ls)
    ensures Encode(Join(ls)) == LabelBytes(ls) + [0]
  {
    BodyOfJoin(ls);
    WireIsLabels(ls);
  }

  lemma {:induction false} WireIsLabels(ls: seq<seq<u8>>)
    requires Fit(ls)
    ensures WireAll(ls) == LabelBytes(ls)
  {
    if ls != [] {
      WireIsLabels(ls[1..]);
      assert Wire(ls[0]) == [|ls[0]|] + ls[0];
    }
  }

  lemma SplitsAtDot(h: seq<u8>, l: seq<u8>, tail: seq<u8>)
    requires h == l + [DOT] + tail && DOT !in l
    ensures First(h) == l && Rest(h) == tail
  {
    assert forall i :: 0 <= i < |l| ==> h[i] == l[i] && l[i] in l;
    DotIs(h, 0, |l|);
  }

  lemma DottedSplits(ls: seq<seq<u8>>)
    requires ls != [] && Proper(ls)
    ensures var h := Join(ls) + [DOT];
            First(h) == ls[0] && Rest(h) == if |ls| == 1 then [] else Join(ls[1..]) + [DOT]
  {
    var tail := if |ls| == 1 then [] else Join(ls[1..]) + [DOT];
    assert Join(ls) + [DOT] == ls[0] + [DOT] + tail;
    SplitsAtDot(Join(ls) + [DOT], ls[0], tail);
  }

  lemma {:induction false} BodyOfDotted(ls: seq<seq<u8>>)
    requires ls != [] && Proper(ls)
    ensures Body(Join(ls) + [DOT]) == WireAll(ls)
  {
    DottedSplits(ls);
    if |ls| > 1 { BodyOfDotted(ls[1..]); }
  }

  /** A trailing dot leaves no trace in the encoding, so decoding drops it. */
  lemma TrailingDotIsLost(ls: seq<seq<u8>>)
    requires ls != [] && Proper(ls)
    ensures Encode(Join(ls) + [DOT]) == Encode(Join(ls))
  {
    BodyOfDotted(ls);
    BodyOfJoin(ls);
  }

  /** Each label with a dot behind it, as the decoder writes them. */
  ghost function Dotted(ls: seq<seq<u8>>): seq<u8> {
    if ls == [] then [] else ls[0] + [DOT] + Dotted(ls[1..])
  }

  lemma {:induction false} DottedIsJoin(ls: seq<seq<u8>>)
    requires ls != []
    ensures Dotted(ls) == Join(ls) + [DOT]
  {
    if |ls| == 1 {
      assert Dotted(ls[1..]) == [];
    } else {
      DottedIsJoin(ls[1..]);
    }
  }

  /** The packet holds these bytes at this position. */
  ghost predicate At(pkt: seq<u8>, pos: nat, bytes: seq<u8>) {
    pos + |bytes| <= |pkt| && forall i :: 0 <= i < |bytes| ==> pkt[pos + i] == bytes[i]
  }

  lemma AtSplit(pkt: seq<u8>, pos: nat, a: seq<u8>, b: seq<u8>)
    requires At(pkt, pos, a + b)
    ensures At(pkt, pos, a) && At(pkt, pos + |a|, b)
  {
    forall i | 0 <= i < |a|
      ensures pkt[pos + i] == a[i]
    {
      assert (a + b)[i] == a[i];
    }
    forall i | 0 <= i < |b|
      ensures pkt[pos + |a| + i] == b[i]
    {
      assert (a + b)[|a| + i] == b[i];
    }
  }

  /** The cursor behind one label. */
  ghost function After(c: Cursor, l: seq<u8>): Cursor {
    c.(pos := c.pos + |Wire(l)|, name := c.name + l + [DOT])
  }

  lemma LabelStep(pkt: seq<u8>, offset: nat, max: nat, c: Cursor, l: seq<u8>)
    requires Sane(offset, c) && 1 <= |l| < 0xC0 && At(pkt, c.pos, Wire(l)) && |c.name| + |l| < max
    ensures Next(pkt, offset, max, c) == Move(After(c, l))
  {
    var w := Wire(l);
    assert w == [|l|] + l;
    assert pkt[c.pos + 0] == w[0] == |l|;
    forall i | 0 <= i < |l|
      ensures pkt[c.pos + 1 + i] == l[i]
    {
      assert pkt[c.pos + (1 + i)] == w[1 + i];
    }
    assert pkt[c.pos + 1..c.pos + 1 + |l|] == l;
    CopiedIs(c.name, pkt, c.pos + 1, |l|);
  }

  lemma RootStep(pkt: seq<u8>, offset: nat, max: nat, c: Cursor, name: seq<u8>)
    requires Sane(offset, c) && At(pkt, c.pos, [0]) && c.name == name + [DOT]
    ensures Next(pkt, offset, max, c) == Stop(Finished(if c.jumped then c.consumed else c.pos - offset + 1, name))
  {
    assert pkt[c.pos + 0] == [0][0];
    assert c.name[..|c.name| - 1] == name;
  }

  lemma RunMove(pkt: seq<u8>, offset: nat, max: nat, c: Cursor, c1: Cursor, fuel: nat)
    requires Sane(offset, c) && Next(pkt, offset, max, c) == Move(c1) && fuel > 0
    ensures Run(pkt, offset, max, c, fuel) == Run(pkt, offset, max, c1, fuel - 1)
  {
  }

  lemma RunStop(pkt: seq<u8>, offset: nat, max: nat, c: Cursor, o: Outcome, fuel: nat)
    requires Sane(offset, c) && Next(pkt, offset, max, c) == Stop(o) && fuel > 0
    ensures Run(pkt, offset, max, c, fuel) == o
  {
  }

  /** The cursor behind labels in wire form. */
  ghost function Behind(c: Cursor, ls: seq<seq<u8>>): Cursor {
    c.(pos := c.pos + |WireAll(ls)|, name := c.name + Dotted(ls))
  }

  lemma FirstLabel(pkt: seq<u8>, offset: nat, max: nat, c: Cursor, ls: seq<seq<u8>>)
    requires Sane(offset, c) && ls != [] && Fit(ls) && At(pkt, c.pos, WireAll(ls)) && |c.name| + |Dotted(ls)| <= max
    ensures Next(pkt, offset, max, c) == Move(After(c, ls[0])) && At(pkt, c.pos + |Wire(ls[0])|, WireAll(ls[1..]))
  {
    AtSplit(pkt, c.pos, Wire(ls[0]), WireAll(ls[1..]));
    LabelStep(pkt, offset, max, c, ls[0]);
  }

  lemma FirstLabelRun(pkt: seq<u8>, offset: nat, max: nat, c: Cursor, ls: seq<seq<u8>>, fuel: nat)
    requires Sane(offset, c) && ls != [] && Fit(ls) && At(pkt, c.pos, WireAll(ls)) && |c.name| + |Dotted(ls)| <= max
             && fuel > 0
    ensures Run(pkt, offset, max, c, fuel) == Run(pkt, offset, max, After(c, ls[0]), fuel - 1)
    ensures At(pkt, After(c, ls[0]).pos, WireAll(ls[1..]))
  {
    FirstLabel(pkt, offset, max, c, ls);
    RunMove(pkt, offset, max, c, After(c, ls[0]), fuel);
  }

  lemma BehindFirst(c: Cursor, ls: seq<seq<u8>>)
    requires ls != []
    ensures Behind(After(c, ls[0]), ls[1..]) == Behind(c, ls)
            && |After(c, ls[0]).name| + |Dotted(ls[1..])| == |c.name| + |Dotted(ls)|
  {
    assert c.name + ls[0] + [DOT] + Dotted(ls[1..]) == c.name + (ls[0] + [DOT] + Dotted(ls[1..]));
  }

  lemma LabelsNext(pkt: seq<u8>, offset: nat, max: nat, c: Cursor, ls: seq<seq<u8>>, fuel: nat)
    requires Sane(offset, c) && ls != [] && Fit(ls) && At(pkt, c.pos, WireAll(ls)) && |c.name| + |Dotted(ls)| <= max
             && fuel > 0
    ensures var c1 := After(c, ls[0]);
            Run(pkt, offset, max, c, fuel) == Run(pkt, offset, max, c1, fuel - 1)
            && Behind(c1, ls[1..]) == Behind(c, ls)
            && Sane(offset, c1) && Fit(ls[1..]) && At(pkt, c1.pos, WireAll(ls[1..]))
            && |c1.name| + |Dotted(ls[1..])| <= max
  {
    FirstLabelRun(pkt, offset, max, c, ls, fuel);
    BehindFirst(c, ls);
  }

  /** Reading labels appends each with a dot, one round per label. */
  lemma {:induction false} LabelsRun(pkt: seq<u8>, offset: nat, max: nat, c: Cursor, ls: seq<seq<u8>>, fuel: nat,
                                     rest: nat)
    requires Sane(offset, c) && Fit(ls) && At(pkt, c.pos, WireAll(ls)) && |c.name| + |Dotted(ls)| <= max
             && fuel == |ls| + rest
    ensures Run(pkt, offset, max, c, fuel) == Run(pkt, offset, max, Behind(c, ls), rest)
    decreases |ls|
  {
    if ls == [] {
      assert Behind(c, ls) == c;
    } else {
      LabelsNext(pkt, offset, max, c, ls, fuel);
      LabelsRun(pkt, offset, max, After(c, ls[0]), ls[1..], fuel - 1, rest);
    }
  }

  lemma NameBehind(c: Cursor, ls: seq<seq<u8>>)
    requires ls != []
    ensures Behind(c, ls).name == c.name + Join(ls) + [DOT]
  {
    DottedIsJoin(ls);
  }

  lemma RootAfter(pkt: seq<u8>, offset: nat, max: nat, c: Cursor, ls: seq<seq<u8>>)
    requires Sane(offset, c) && ls != [] && At(pkt, c.pos + |WireAll(ls)|, [0])
    ensures Next(pkt, offset, max, Behind(c, ls))
            == Stop(Finished(if c.jumped then c.consumed else c.pos - offset + |WireAll(ls)| + 1, c.name + Join(ls)))
  {
    NameBehind(c, ls);
    RootStep(pkt, offset, max, Behind(c, ls), c.name + Join(ls));
  }

  /** An encoding read from a cursor: its name is appended and the decoding ends. */
  lemma EncodingRun(pkt: seq<u8>, offset: nat, max: nat, c: Cursor, ls: seq<seq<u8>>, fuel: nat)
    requires Sane(offset, c) && ls != [] && Fit(ls) && At(pkt, c.pos, WireAll(ls))
             && At(pkt, c.pos + |WireAll(ls)|, [0])
    requires |c.name| + |Dotted(ls)| <= max && fuel > |ls|
    ensures Run(pkt, offset, max, c, fuel)
            == Finished(if c.jumped then c.consumed else c.pos - offset + |WireAll(ls)| + 1, c.name + Join(ls))
  {
    LabelsRun(pkt, offset, max, c, ls, fuel, fuel - |ls|);
    RootAfter(pkt, offset, max, c, ls);
    RunStop(pkt, offset, max, Behind(c, ls), Next(pkt, offset, max, Behind(c, ls)).o, fuel - |ls|);
  }

  /** Decoding the encoding of a name gives the name back and consumes exactly the encoding. */
  lemma RoundTrip(pkt: seq<u8>, offset: nat, max: nat, ls: seq<seq<u8>>, fuel: nat)
    requires ls != [] && Proper(ls) && At(pkt, offset, Encode(Join(ls))) && |Join(ls)| < max && fuel > |ls|
    ensures Decode(pkt, offset, max, fuel) == Finished(|Encode(Join(ls))|, Join(ls))
  {
    EncodedAt(pkt, offset, ls);
    DottedIsJoin(ls);
    EncodingRun(pkt, offset, max, Cursor(offset, false, 0, []), ls, fuel);
    assert [] + Join(ls) == Join(ls);
  }

  /** A compression pointer. */
  function Pointer(target: nat): seq<u8>
    requires target < 0x4000
  {
    [0xC0 + target / 256, target % 256]
  }

  /** Labels (or none), then one pointer to an encoding: all labels joined; labels and pointer are consumed. */
  lemma RoundTripThroughPointer(pkt: seq<u8>, offset: nat, max: nat, prefix: seq<seq<u8>>, target: nat,
                                ls: seq<seq<u8>>, fuel: nat)
    requires target < 0x4000 && ls != [] && Proper(ls) && Proper(prefix) && At(pkt, target, Encode(Join(ls)))
    requires At(pkt, offset, WireAll(prefix) + Pointer(target)) && |Dotted(prefix)| + |Join(ls)| < max
    requires fuel > |prefix| + 1 + |ls|
    ensures Decode(pkt, offset, max, fuel) == Finished(|WireAll(prefix)| + 2, Join(prefix + ls))
  {
    AtSplit(pkt, offset, WireAll(prefix), Pointer(target));
    EncodedAt(pkt, target, ls);
    JoinAppends(prefix, ls);
    PrefixRun(pkt, offset, max, prefix, target, ls, fuel, fuel - |prefix|);
  }

  lemma PrefixRun(pkt: seq<u8>, offset: nat, max: nat, prefix: seq<seq<u8>>, target: nat, ls: seq<seq<u8>>, fuel: nat,
                  rest: nat)
    requires Fit(prefix) && At(pkt, offset, WireAll(prefix)) && |Dotted(prefix)| + |Join(ls)| < max
    requires target < 0x4000 && At(pkt, offset + |WireAll(prefix)|, Pointer(target))
    requires ls != [] && Fit(ls) && At(pkt, target, WireAll(ls)) && At(pkt, target + |WireAll(ls)|, [0])
    requires fuel == |prefix| + rest && rest > |ls| + 1
    ensures Decode(pkt, offset, max, fuel) == Finished(|WireAll(prefix)| + 2, Dotted(prefix) + Join(ls))
  {
    PrefixStart(pkt, offset, max, prefix, fuel, rest);
    PrefixEnd(pkt, offset, max, prefix, target, ls, rest);
  }

  /** The cursor behind the labels at the start of a name. */
  ghost function Start(offset: nat, ls: seq<seq<u8>>): Cursor {
    Cursor(offset + |WireAll(ls)|, false, 0, Dotted(ls))
  }

  lemma PrefixStart(pkt: seq<u8>, offset: nat, max: nat, prefix: seq<seq<u8>>, fuel: nat, rest: nat)
    requires Fit(prefix) && At(pkt, offset, WireAll(prefix)) && |Dotted(prefix)| <= max && fuel == |prefix| + rest
    ensures Decode(pkt, offset, max, fuel) == Run(pkt, offset, max, Start(offset, prefix), rest)
  {
    BehindStart(offset, prefix);
    LabelsRun(pkt, offset, max, Cursor(offset, false, 0, []), prefix, fuel, rest);
  }

  lemma PrefixEnd(pkt: seq<u8>, offset: nat, max: nat, prefix: seq<seq<u8>>, target: nat, ls: seq<seq<u8>>, fuel: nat)
    requires |Dotted(prefix)| + |Join(ls)| < max
    requires target < 0x4000 && At(pkt, offset + |WireAll(prefix)|, Pointer(target))
    requires ls != [] && Fit(ls) && At(pkt, target, WireAll(ls)) && At(pkt, target + |WireAll(ls)|, [0])
    requires fuel > |ls| + 1
    ensures Run(pkt, offset, max, Start(offset, prefix), fuel)
            == Finished(|WireAll(prefix)| + 2, Dotted(prefix) + Join(ls))
  {
    PointerStep(pkt, offset, max, Start(offset, prefix), target);
    JumpRun(pkt, offset, max, Start(offset, prefix), Jump(offset, Start(offset, prefix), target), target, ls, fuel);
  }

  lemma BehindStart(offset: nat, ls: seq<seq<u8>>)
    ensures Behind(Cursor(offset, false, 0, []), ls) == Start(offset, ls)
  {
    assert [] + Dotted(ls) == Dotted(ls);
  }

  lemma EncodedAt(pkt: seq<u8>, pos: nat, ls: seq<seq<u8>>)
    requires Proper(ls) && At(pkt, pos, Encode(Join(ls)))
    ensures At(pkt, pos, WireAll(ls)) && At(pkt, pos + |WireAll(ls)|, [0]) && |Encode(Join(ls))| == |WireAll(ls)| + 1
  {
    BodyOfJoin(ls);
    AtSplit(pkt, pos, WireAll(ls), [0]);
  }

  lemma JumpRun(pkt: seq<u8>, offset: nat, max: nat, c: Cursor, c1: Cursor, target: nat, ls: seq<seq<u8>>, fuel: nat)
    requires Sane(offset, c) && Next(pkt, offset, max, c) == Move(c1) && c1.jumped && c1.pos == target
    requires ls != [] && Fit(ls) && At(pkt, target, WireAll(ls)) && At(pkt, target + |WireAll(ls)|, [0])
    requires |c1.name| + |Join(ls)| < max && fuel > |ls| + 1
    ensures Run(pkt, offset, max, c, fuel) == Finished(c1.consumed, c1.name + Join(ls))
  {
    RunMove(pkt, offset, max, c, c1, fuel);
    JumpedRun(pkt, offset, max, c1, target, ls, fuel - 1);
  }

  lemma JumpedRun(pkt: seq<u8>, offset: nat, max: nat, c: Cursor, target: nat, ls: seq<seq<u8>>, fuel: nat)
    requires c.jumped && c.pos == target
    requires ls != [] && Fit(ls) && At(pkt, target, WireAll(ls)) && At(pkt, target + |WireAll(ls)|, [0])
    requires |c.name| + |Join(ls)| < max && fuel > |ls|
    ensures Run(pkt, offset, max, c, fuel) == Finished(c.consumed, c.name + Join(ls))
  {
    DottedIsJoin(ls);
    EncodingRun(pkt, offset, max, c, ls, fuel);
  }

  lemma {:induction false} JoinAppends(a: seq<seq<u8>>, b: seq<seq<u8>>)
    requires b != []
    ensures Join(a + b) == Dotted(a) + Join(b)
  {
    if a == [] {
      assert a + b == b;
    } else {
      JoinAppends(a[1..], b);
      assert (a + b)[1..] == a[1..] + b;
      assert a[0] + [DOT] + (Dotted(a[1..]) + Join(b)) == a[0] + [DOT] + Dotted(a[1..]) + Join(b);
    }
  }

  lemma PointerStep(pkt: seq<u8>, offset: nat, max: nat, c: Cursor, target: nat)
    requires target < 0x4000 && Sane(offset, c) && At(pkt, c.pos, Pointer(target))
    ensures Next(pkt, offset, max, c) == Move(Jump(offset, c, target))
  {
    var p := Pointer(target);
    assert pkt[c.pos + 0] == p[0] && pkt[c.pos + 1] == p[1];
  }

  /** A label of 192 characters or more is read as a pointer, so not even its length comes back. */
  lemma LongLabelIsPointer(h: seq<u8>, max: nat, fuel: nat)
    requires 0xC0 <= |First(h)| < 0x100
    ensures Decode(Encode(h), 0, max, fuel).Finished? ==> Decode(Encode(h), 0, max, fuel).consumed != |Encode(h)|
  {
    var c1 := LongLabelStep(h, max);
    if fuel > 0 {
      RunMove(Encode(h), 0, max, Cursor(0, false, 0, []), c1, fuel);
      JumpFixesConsumed(Encode(h), 0, max, c1, fuel - 1);
    }
  }

  lemma LongLabelStep(h: seq<u8>, max: nat) returns (c1: Cursor)
    requires 0xC0 <= |First(h)| < 0x100
    ensures Next(Encode(h), 0, max, Cursor(0, false, 0, [])) == Move(c1) && c1.jumped && c1.consumed == 2 < |Encode(h)|
  {
    var pkt := Encode(h);
    assert pkt[0] == |First(h)| && |pkt| > 2;
    c1 := Jump(0, Cursor(0, false, 0, []), Target(pkt[0], pkt[1]));
  }

  lemma {:induction false} JumpFixesConsumed(pkt: seq<u8>, offset: nat, max: nat, c: Cursor, fuel: nat)
    requires c.jumped
    ensures Run(pkt, offset, max, c, fuel).Finished? ==> Run(pkt, offset, max, c, fuel).consumed == c.consumed
    decreases fuel
  {
    var r := Next(pkt, offset, max, c);
    if fuel > 0 && r.Move? { JumpFixesConsumed(pkt, offset, max, r.c, fuel - 1); }
  }

  // ----------------------------------------------------------------------------- termination

  /** A pointer to itself is followed for ever. */
  lemma {:induction false} SelfPointerNeverEnds(pkt: seq<u8>, offset: nat, max: nat, c: Cursor, fuel: nat)
    requires c.pos < 0x4000 && At(pkt, c.pos, Pointer(c.pos)) && Sane(offset, c)
    ensures Run(pkt, offset, max, c, fuel) == Running
    decreases fuel
  {
    if fuel > 0 {
      PointerStep(pkt, offset, max, c, c.pos);
      SelfPointerNeverEnds(pkt, offset, max, Jump(offset, c, c.pos), fuel - 1);
    }
  }

  /** Without pointers decoding ends: every round moves on. */
  lemma {:induction false} EndsWithoutPointers(pkt: seq<u8>, offset: nat, max: nat, c: Cursor, fuel: nat)
    requires (forall i :: 0 <= i < |pkt| ==> pkt[i] < 0xC0) && Sane(offset, c) && fuel > 0 && fuel + c.pos > |pkt|
    ensures Run(pkt, offset, max, c, fuel) != Running
    decreases fuel
  {
    var r := Next(pkt, offset, max, c);
    if r.Move? { EndsWithoutPointers(pkt, offset, max, r.c, fuel - 1); }
  }
}
