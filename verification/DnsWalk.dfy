/**
 When the name codec of kernal/net/dns.c keeps its promises: the exact names that survive
 encoding and decoding, what an output that is too short leaves, and the exact packets on
 which the decoder comes to an end.
 */
module DnsWalk {
  import opened Words
  import opened Dns

  // ---------------------------------------------------------------- the parts of a host name

  /** What stands between the dots; behind a trailing dot stands an empty part. */
  ghost function Parts(h: seq<u8>): seq<seq<u8>>
    decreases |h|
  {
    var d := DotFrom(h, 0);
    if d == |h| then [h] else [h[..d]] + Parts(h[d + 1..])
  }

  lemma {:induction false} DotFromFinds(h: seq<u8>, k: nat)
    requires k <= |h|
    ensures var d := DotFrom(h, k); (forall i :: k <= i < d ==> h[i] != DOT) && (d < |h| ==> h[d] == DOT)
    decreases |h| - k
  {
    if k < |h| && h[k] != DOT { DotFromFinds(h, k + 1); }
  }

  /** The parts are the one way to cut the name at its dots. */
  lemma {:induction false} PartsJoin(h: seq<u8>)
    ensures Parts(h) != [] && Join(Parts(h)) == h && forall i :: 0 <= i < |Parts(h)| ==> DOT !in Parts(h)[i]
    decreases |h|
  {
    var d := DotFrom(h, 0);
    DotFromFinds(h, 0);
    if d < |h| {
      PartsJoin(h[d + 1..]);
      assert Parts(h)[1..] == Parts(h[d + 1..]);
      assert h == h[..d] + [DOT] + h[d + 1..];
    }
  }

  /** The labels the encoder writes: an empty part at the end is none. */
  ghost function Labels(h: seq<u8>): seq<seq<u8>>
    decreases |h|
  {
    if h == [] then [] else [First(h)] + Labels(Rest(h))
  }

  lemma {:induction false} EncodeLabels(h: seq<u8>)
    ensures Encode(h) == WireAll(Labels(h)) + [0]
    decreases |h|
  {
    if h != [] {
      EncodeLabels(Rest(h));
      assert Body(Rest(h)) == Encode(Rest(h))[..|Body(Rest(h))|] == WireAll(Labels(Rest(h)));
      assert Labels(h)[1..] == Labels(Rest(h));
    }
  }

  ghost predicate EndsEmpty(ls: seq<seq<u8>>) {
    ls != [] && ls[|ls| - 1] == []
  }

  lemma PartsStep(h: seq<u8>)
    ensures DotFrom(h, 0) < |h| ==> Parts(h) == [First(h)] + Parts(Rest(h)) && Labels(h) == [First(h)] + Labels(Rest(h))
    ensures DotFrom(h, 0) == |h| ==> Parts(h) == [h] && (h != [] ==> Labels(h) == [h])
  {
    if DotFrom(h, 0) == |h| && h != [] {
      assert Rest(h) == [] && First(h) == h;
      assert Labels(h) == [First(h)] + Labels(Rest(h));
    }
  }

  lemma EndsEmptyBehind(l: seq<u8>, ps: seq<seq<u8>>, ls: seq<seq<u8>>)
    requires ps != [] && ps == if EndsEmpty(ps) then ls + [[]] else ls
    ensures EndsEmpty([l] + ps) <==> EndsEmpty(ps)
    ensures [l] + ps == if EndsEmpty(ps) then ([l] + ls) + [[]] else [l] + ls
  {
    assert ([l] + ps)[|ps|] == ps[|ps| - 1];
  }

  lemma {:induction false} LabelsAreParts(h: seq<u8>)
    ensures Parts(h) != [] && Parts(h) == if EndsEmpty(Parts(h)) then Labels(h) + [[]] else Labels(h)
    decreases |h|
  {
    PartsStep(h);
    if DotFrom(h, 0) < |h| {
      LabelsAreParts(Rest(h));
      EndsEmptyBehind(First(h), Parts(Rest(h)), Labels(Rest(h)));
    }
  }

  // ---------------------------------------------------------- one label of any length

  /** The cursor behind a label of any length, as the encoder cut it. */
  ghost function Past(c: Cursor, l: seq<u8>): Cursor {
    After(c, l[..|l| % 256])
  }

  /** What the encoder keeps of a label, the decoder reads back, unless it looks like a pointer. */
  lemma CutLabelStep(pkt: seq<u8>, offset: nat, max: nat, c: Cursor, l: seq<u8>)
    requires Sane(offset, c) && 1 <= |l| % 256 < 0xC0 && At(pkt, c.pos, Wire(l)) && |c.name| + |l| % 256 < max
    ensures Next(pkt, offset, max, c) == Move(Past(c, l))
  {
    assert Wire(l[..|l| % 256]) == Wire(l);
    LabelStep(pkt, offset, max, c, l[..|l| % 256]);
  }

  lemma ZeroStops(pkt: seq<u8>, offset: nat, max: nat, c: Cursor, fuel: nat)
    requires Sane(offset, c) && !c.jumped && c.pos < |pkt| && pkt[c.pos] == 0
    ensures Run(pkt, offset, max, c, fuel)
         == if fuel == 0 then Running else Finished(c.pos - offset + 1, Stripped(c.name))
  {
  }

  lemma PointerConsumes(pkt: seq<u8>, offset: nat, max: nat, c: Cursor, fuel: nat)
    requires Sane(offset, c) && !c.jumped && c.pos + 1 < |pkt| && pkt[c.pos] >= 0xC0
    ensures var o := Run(pkt, offset, max, c, fuel); o.Finished? ==> o.consumed == c.pos - offset + 2
  {
    if fuel > 0 {
      var c1 := Jump(offset, c, Target(pkt[c.pos], pkt[c.pos + 1]));
      RunMove(pkt, offset, max, c, c1, fuel);
      JumpFixesConsumed(pkt, offset, max, c1, fuel - 1);
    }
  }

  // ------------------------------------------------- the decoder on labels of any lengths

  /** How a walk over labels ends, in numbers: still inside, ended, or led away by a pointer. */
  datatype Walk = Inside | Ended(consumed: nat, chars: nat) | Away(consumed: nat)

  /** The walk over labels of these lengths, with used bytes and chars characters behind it. */
  ghost function WalkFrom(ns: seq<nat>, used: nat, chars: nat, fuel: nat): Walk
    decreases |ns|
  {
    if fuel == 0 then Inside
    else if ns == [] || ns[0] % 256 == 0 then Ended(used + 1, if chars == 0 then 0 else chars - 1)
    else if ns[0] % 256 >= 0xC0 then Away(used + 2)
    else WalkFrom(ns[1..], used + 1 + ns[0] % 256, chars + ns[0] % 256 + 1, fuel - 1)
  }

  ghost function Lengths(ls: seq<seq<u8>>): (ns: seq<nat>)
    ensures |ns| == |ls| && forall i :: 0 <= i < |ls| ==> ns[i] == |ls[i]|
  {
    if ls == [] then [] else [|ls[0]|] + Lengths(ls[1..])
  }

  /** The bytes of the encoding, and the characters with a dot behind each label. */
  ghost function Size(ns: seq<nat>): nat {
    if ns == [] then 1 else 1 + ns[0] % 256 + Size(ns[1..])
  }

  ghost function Chars(ns: seq<nat>): nat {
    if ns == [] then 0 else ns[0] + 1 + Chars(ns[1..])
  }

  /** A walk that consumes the encoding is not led away, and finds no more than the characters. */
  lemma {:induction false} WalkIsShort(ns: seq<nat>, used: nat, chars: nat, fuel: nat)
    ensures var w := WalkFrom(ns, used, chars, fuel);
            (w.Away? ==> w.consumed < used + Size(ns))
            && (w.Ended? && w.consumed == used + Size(ns)
                ==> w.chars <= if chars == 0 && ns == [] then 0 else chars + Chars(ns) - 1)
    decreases |ns|
  {
    if ns != [] {
      var m := ns[0] % 256;
      if fuel > 0 && 1 <= m < 0xC0 { WalkIsShort(ns[1..], used + 1 + m, chars + m + 1, fuel - 1); }
    }
  }

  /** A label that is too long, or empty before the end, loses characters that nothing brings back. */
  lemma {:induction false} MisfitIsShorter(ns: seq<nat>, used: nat, chars: nat, fuel: nat, k: nat)
    requires k < |ns| && !(1 <= ns[k] < 0xC0) && ns[|ns| - 1] > 0
    ensures var w := WalkFrom(ns, used, chars, fuel);
            (w.Away? ==> w.consumed < used + Size(ns))
            && (w.Ended? && w.consumed == used + Size(ns) ==> w.chars < chars + Chars(ns) - 1)
    decreases |ns|
  {
    var m := ns[0] % 256;
    if fuel > 0 && 1 <= m < 0xC0 {
      if 1 <= ns[0] < 0xC0 {
        MisfitIsShorter(ns[1..], used + 1 + m, chars + m + 1, fuel - 1, k - 1);
      } else {
        WalkIsShort(ns[1..], used + 1 + m, chars + m + 1, fuel - 1);
      }
    }
  }

  /** The decoder ends like the walk, or is led away. */
  ghost predicate Follows(o: Outcome, w: Walk) {
    match w
    case Inside => o == Running
    case Ended(consumed, chars) => o.Finished? && o.consumed == consumed && |o.name| == chars
    case Away(consumed) => o.Finished? ==> o.consumed == consumed
  }

  /** Labels and the root stand in the packet behind the cursor; there is room for the name. */
  ghost predicate Before(pkt: seq<u8>, offset: nat, max: nat, c: Cursor, ls: seq<seq<u8>>) {
    Sane(offset, c) && !c.jumped && At(pkt, c.pos, WireAll(ls) + [0])
    && (c.name == [] || c.name[|c.name| - 1] == DOT) && (ls != [] ==> |c.name| + |Dotted(ls)| <= max)
  }

  lemma BeforeLabel(pkt: seq<u8>, offset: nat, max: nat, c: Cursor, ls: seq<seq<u8>>)
    requires Before(pkt, offset, max, c, ls) && ls != []
    ensures At(pkt, c.pos, Wire(ls[0])) && At(pkt, c.pos + |Wire(ls[0])|, WireAll(ls[1..]) + [0])
    ensures c.pos + 1 < |pkt| && pkt[c.pos] == |ls[0]| % 256
  {
    assert WireAll(ls) + [0] == Wire(ls[0]) + (WireAll(ls[1..]) + [0]);
    AtSplit(pkt, c.pos, Wire(ls[0]), WireAll(ls[1..]) + [0]);
    assert pkt[c.pos + 0] == Wire(ls[0])[0];
  }

  lemma BeforePast(pkt: seq<u8>, offset: nat, max: nat, c: Cursor, ls: seq<seq<u8>>) returns (c1: Cursor)
    requires Before(pkt, offset, max, c, ls) && ls != [] && 1 <= |ls[0]| % 256 < 0xC0
    ensures Before(pkt, offset, max, c1, ls[1..]) && Next(pkt, offset, max, c) == Move(c1)
    ensures c1.pos == c.pos + 1 + |ls[0]| % 256 && |c1.name| == |c.name| + |ls[0]| % 256 + 1
  {
    BeforeLabel(pkt, offset, max, c, ls);
    c1 := Past(c, ls[0]);
    CutLabelStep(pkt, offset, max, c, ls[0]);
  }

  lemma WalkStep(ls: seq<seq<u8>>, used: nat, chars: nat, fuel: nat)
    requires ls != [] && 1 <= |ls[0]| % 256 < 0xC0 && fuel > 0
    ensures WalkFrom(Lengths(ls), used, chars, fuel)
         == WalkFrom(Lengths(ls[1..]), used + 1 + |ls[0]| % 256, chars + |ls[0]| % 256 + 1, fuel - 1)
  {
    assert Lengths(ls)[1..] == Lengths(ls[1..]);
  }

  /** Here the walk stops, or is led away, or no round is left. */
  lemma StopFollowsWalk(pkt: seq<u8>, offset: nat, max: nat, c: Cursor, ls: seq<seq<u8>>, fuel: nat)
    requires Before(pkt, offset, max, c, ls) && (fuel == 0 || ls == [] || !(1 <= |ls[0]| % 256 < 0xC0))
    ensures Follows(Run(pkt, offset, max, c, fuel), WalkFrom(Lengths(ls), c.pos - offset, |c.name|, fuel))
  {
    if ls == [] {
      assert pkt[c.pos + 0] == (WireAll(ls) + [0])[0];
      ZeroStops(pkt, offset, max, c, fuel);
    } else {
      BeforeLabel(pkt, offset, max, c, ls);
      if |ls[0]| % 256 == 0 {
        ZeroStops(pkt, offset, max, c, fuel);
      } else if |ls[0]| % 256 >= 0xC0 {
        PointerConsumes(pkt, offset, max, c, fuel);
      }
    }
  }

  /** Here both go on. */
  lemma GoFollowsWalk(pkt: seq<u8>, offset: nat, max: nat, c: Cursor, ls: seq<seq<u8>>, fuel: nat) returns (c1: Cursor)
    requires Before(pkt, offset, max, c, ls) && fuel > 0 && ls != [] && 1 <= |ls[0]| % 256 < 0xC0
    ensures Before(pkt, offset, max, c1, ls[1..])
    ensures Run(pkt, offset, max, c, fuel) == Run(pkt, offset, max, c1, fuel - 1)
    ensures WalkFrom(Lengths(ls), c.pos - offset, |c.name|, fuel)
         == WalkFrom(Lengths(ls[1..]), c1.pos - offset, |c1.name|, fuel - 1)
  {
    c1 := BeforePast(pkt, offset, max, c, ls);
    RunMove(pkt, offset, max, c, c1, fuel);
    WalkStep(ls, c.pos - offset, |c.name|, fuel);
  }

  /** The outcome of the decoder and the end of the walk, as values. */
  lemma {:induction false} OutcomeFollowsWalk(pkt: seq<u8>, offset: nat, max: nat, c: Cursor, ls: seq<seq<u8>>,
                                              fuel: nat,
                                              o: Outcome, w: Walk)
    requires Before(pkt, offset, max, c, ls)
    requires o == Run(pkt, offset, max, c, fuel) && w == WalkFrom(Lengths(ls), c.pos - offset, |c.name|, fuel)
    ensures Follows(o, w)
    decreases |ls|
  {
    if fuel == 0 || ls == [] || !(1 <= |ls[0]| % 256 < 0xC0) {
      StopFollowsWalk(pkt, offset, max, c, ls, fuel);
    } else {
      var c1 := GoFollowsWalk(pkt, offset, max, c, ls, fuel);
      OutcomeFollowsWalk(pkt, offset, max, c1, ls[1..], fuel - 1, o, w);
    }
  }

  /** The decoder on an encoding ends like the walk over the lengths of its labels. */
  lemma RunFollowsWalk(pkt: seq<u8>, offset: nat, max: nat, c: Cursor, ls: seq<seq<u8>>, fuel: nat)
    requires Before(pkt, offset, max, c, ls)
    ensures Follows(Run(pkt, offset, max, c, fuel), WalkFrom(Lengths(ls), c.pos - offset, |c.name|, fuel))
  {
    OutcomeFollowsWalk(pkt, offset, max, c, ls, fuel, Run(pkt, offset, max, c, fuel),
                       WalkFrom(Lengths(ls), c.pos - offset, |c.name|, fuel));
  }

  // ------------------------------------------------------------ the names that come back

  lemma {:induction false} LabelSizes(ls: seq<seq<u8>>)
    ensures |WireAll(ls)| + 1 == Size(Lengths(ls)) && |Dotted(ls)| == Chars(Lengths(ls))
  {
    if ls != [] {
      LabelSizes(ls[1..]);
      assert Lengths(ls)[1..] == Lengths(ls[1..]);
    }
  }

  lemma NameSize(h: seq<u8>)
    requires h != []
    ensures |h| == if EndsEmpty(Parts(h)) then |Dotted(Labels(h))| else |Dotted(Labels(h))| - 1
    ensures Labels(h) != []
  {
    PartsJoin(h);
    LabelsAreParts(h);
    DottedIsJoin(Parts(h));
    if EndsEmpty(Parts(h)) { DottedLast(Labels(h)); }
  }

  lemma {:induction false} DottedLast(ls: seq<seq<u8>>)
    ensures |Dotted(ls + [[]])| == |Dotted(ls)| + 1
  {
    if ls != [] {
      DottedLast(ls[1..]);
      assert (ls + [[]])[1..] == ls[1..] + [[]];
    } else {
      assert Dotted((ls + [[]])[1..]) == [];
    }
  }

  /** The labels of a name with a misfit: one of them, or an empty part at the end. */
  lemma MisfitLabels(h: seq<u8>) returns (ns: seq<nat>, k: nat)
    requires h != [] && !Fit(Parts(h))
    ensures ns == Lengths(Labels(h)) && ns != []
    ensures Chars(ns) == (if EndsEmpty(Parts(h)) then |h| else |h| + 1)
    ensures !EndsEmpty(Parts(h)) ==> k < |ns| && !(1 <= ns[k] < 0xC0) && ns[|ns| - 1] > 0
  {
    NameSize(h);
    LabelsAreParts(h);
    var ls := Labels(h);
    LabelSizes(ls);
    ns, k := Lengths(ls), 0;
    if !EndsEmpty(Parts(h)) { k :| 0 <= k < |ls| && !(1 <= |ls[k]| < 0xC0); }
  }

  /** The first part that does not fit spoils the round trip, whatever follows it. */
  lemma MisfitIsLost(h: seq<u8>, fuel: nat)
    requires h != [] && !Fit(Parts(h))
    ensures var w := WalkFrom(Lengths(Labels(h)), 0, 0, fuel);
            (w.Away? ==> w.consumed < Size(Lengths(Labels(h))))
            && (w.Ended? && w.consumed == Size(Lengths(Labels(h))) ==> w.chars < |h|)
  {
    var ns, k := MisfitLabels(h);
    if EndsEmpty(Parts(h)) {
      WalkIsShort(ns, 0, 0, fuel);
    } else {
      MisfitIsShorter(ns, 0, 0, fuel, k);
    }
  }

  lemma StartsBefore(pkt: seq<u8>, offset: nat, max: nat, h: seq<u8>)
    requires At(pkt, offset, Encode(h)) && |h| < max
    ensures Before(pkt, offset, max, Cursor(offset, false, 0, []), Labels(h))
    ensures |Encode(h)| == Size(Lengths(Labels(h)))
  {
    EncodeLabels(h);
    LabelSizes(Labels(h));
    if h != [] { NameSize(h); }
  }

  /**
   A name survives encoding and decoding exactly when it is empty or every part between its
   dots, the one behind a trailing dot included, has 1 to 191 characters.
   */
  lemma RoundTripIff(pkt: seq<u8>, offset: nat, max: nat, h: seq<u8>)
    requires At(pkt, offset, Encode(h)) && |h| < max
    ensures (exists fuel :: Decode(pkt, offset, max, fuel) == Finished(|Encode(h)|, h)) <==> h == [] || Fit(Parts(h))
  {
    var c := Cursor(offset, false, 0, []);
    PartsJoin(h);
    if h == [] {
      assert pkt[offset + 0] == Encode(h)[0];
      ZeroStops(pkt, offset, max, c, 1);
      assert Decode(pkt, offset, max, 1) == Finished(|Encode(h)|, h);
    } else if Fit(Parts(h)) {
      RoundTrip(pkt, offset, max, Parts(h), |Parts(h)| + 1);
    } else {
      StartsBefore(pkt, offset, max, h);
      forall fuel
        ensures Decode(pkt, offset, max, fuel) != Finished(|Encode(h)|, h)
      {
        RunFollowsWalk(pkt, offset, max, c, Labels(h), fuel);
        MisfitIsLost(h, fuel);
      }
    }
  }

  // ------------------------------------------------------- an output too short for the name

  /** A byte that is neither the end of a name nor a pointer. */
  ghost predicate Plain(b: u8) { 1 <= b < 0xC0 }

  /** A full output stays as it is: labels are walked through byte by byte, pointers followed. */
  lemma {:induction false} FullKeepsName(pkt: seq<u8>, offset: nat, max: nat, c: Cursor, fuel: nat)
    requires Sane(offset, c) && |c.name| == max
    ensures var o := Run(pkt, offset, max, c, fuel); o.Finished? ==> o.name == Stripped(c.name)
    decreases fuel
  {
    var r := Next(pkt, offset, max, c);
    if fuel > 0 && r.Move? { FullKeepsName(pkt, offset, max, r.c, fuel - 1); }
  }

  /** With a full output every byte counts as a length, up to the first that ends the name or points. */
  lemma {:induction false} FullScans(pkt: seq<u8>, offset: nat, max: nat, c: Cursor, z: nat, fuel: nat)
    requires Sane(offset, c) && !c.jumped && |c.name| == max && c.pos <= z < |pkt| && (pkt[z] != 0 ==> z + 1 < |pkt|)
    requires (forall i :: c.pos <= i < z ==> Plain(pkt[i])) && !Plain(pkt[z])
    ensures var o := Run(pkt, offset, max, c, fuel);
            o.Finished? ==> o.consumed == z - offset + (if pkt[z] == 0 then 1 else 2)
    decreases fuel
  {
    if c.pos == z {
      if pkt[z] == 0 { ZeroStops(pkt, offset, max, c, fuel); } else { PointerConsumes(pkt, offset, max, c, fuel); }
    } else if fuel > 0 {
      var c1 := c.(pos := c.pos + 1);
      assert Plain(pkt[c.pos]) && Next(pkt, offset, max, c) == Move(c1);
      RunMove(pkt, offset, max, c, c1, fuel);
      FullScans(pkt, offset, max, c1, z, fuel - 1);
    }
  }

  /** What the reader of lengths makes of a byte. */
  ghost function Kind(b: u8): nat {
    if b == 0 then 0 else if b < 0xC0 then 1 else 2
  }

  /** In an encoding, each length stands where the dot before its label stood. */
  lemma {:induction false} KindsOf(ls: seq<seq<u8>>, i: nat)
    requires Fit(ls) && i < |WireAll(ls)|
    ensures |Dotted(ls)| == |WireAll(ls)| && Kind(WireAll(ls)[i]) == Kind(([DOT] + Dotted(ls))[i])
  {
    var l := ls[0];
    var w := Wire(l);
    assert |w| == 1 + |l|;
    if i < |w| {
      if |ls| > 1 { KindsOf(ls[1..], 0); }
      assert i > 0 ==> w[i] == l[i - 1] == Dotted(ls)[i - 1];
    } else {
      KindsOf(ls[1..], i - |w|);
      assert WireAll(ls)[i] == WireAll(ls[1..])[i - |w|];
      assert ([DOT] + Dotted(ls))[i] == ([DOT] + Dotted(ls[1..]))[i - |w|];
    }
  }

  /** A label that does not fit any more is cut, and its dot is the last character of the output. */
  lemma CutStep(pkt: seq<u8>, offset: nat, max: nat, c: Cursor, l: seq<u8>, k: nat)
    requires Sane(offset, c) && 1 <= |l| < 0xC0 && At(pkt, c.pos, Wire(l)) && |c.name| < max <= |c.name| + |l|
    requires k == max - 1 - |c.name|
    ensures Next(pkt, offset, max, c) == Move(c.(pos := c.pos + 1 + k, name := c.name + l[..k] + [DOT]))
  {
    var w := Wire(l);
    assert w == [|l|] + l;
    assert pkt[c.pos + 0] == w[0] == |l|;
    forall i | 0 <= i < k
      ensures pkt[c.pos + 1 + i] == l[i]
    {
      assert pkt[c.pos + (1 + i)] == w[1 + i];
    }
    assert pkt[c.pos + 1..c.pos + 1 + k] == l[..k];
    CopiedIs(c.name, pkt, c.pos + 1, k);
  }

  /** The cursor stands before a label, and the name so far is what the host name begins with. */
  ghost predicate Filling(pkt: seq<u8>, offset: nat, max: nat, c: Cursor, ls: seq<seq<u8>>, h: seq<u8>) {
    !c.jumped && c.pos == offset + |c.name| && At(pkt, c.pos, WireAll(ls)) && Fit(ls)
    && c.name + Dotted(ls) == h + [DOT] && |c.name| <= max <= |h| && (c.name == [] || c.name[|c.name| - 1] == DOT)
  }

  /** The output is full. */
  ghost predicate Full(offset: nat, max: nat, c: Cursor, h: seq<u8>) {
    !c.jumped && c.pos == offset + max && |c.name| == max > 0 && max <= |h| && Stripped(c.name) == h[..max - 1]
  }

  lemma FillingIsFull(pkt: seq<u8>, offset: nat, max: nat, c: Cursor, ls: seq<seq<u8>>, h: seq<u8>)
    requires Filling(pkt, offset, max, c, ls, h) && |c.name| == max > 0
    ensures Full(offset, max, c, h)
  {
    assert forall i :: 0 <= i < max - 1 ==> c.name[i] == (c.name + Dotted(ls))[i] == (h + [DOT])[i] == h[i];
  }

  /** A label that fits: the filling goes on. */
  lemma FillStep(pkt: seq<u8>, offset: nat, max: nat, c: Cursor, ls: seq<seq<u8>>, h: seq<u8>) returns (c1: Cursor)
    requires Filling(pkt, offset, max, c, ls, h) && ls != [] && |c.name| + |ls[0]| < max
    ensures Filling(pkt, offset, max, c1, ls[1..], h) && Next(pkt, offset, max, c) == Move(c1) && c.pos < c1.pos
  {
    AtSplit(pkt, c.pos, Wire(ls[0]), WireAll(ls[1..]));
    LabelStep(pkt, offset, max, c, ls[0]);
    c1 := After(c, ls[0]);
    BehindFirst(c, ls);
    assert c1.name + Dotted(ls[1..]) == c.name + Dotted(ls);
  }

  /** The label that does not fit. */
  lemma FillLast(pkt: seq<u8>, offset: nat, max: nat, c: Cursor, ls: seq<seq<u8>>, h: seq<u8>) returns (c1: Cursor)
    requires Filling(pkt, offset, max, c, ls, h) && ls != [] && |c.name| < max <= |c.name| + |ls[0]|
    ensures Full(offset, max, c1, h) && Next(pkt, offset, max, c) == Move(c1) && c.pos < c1.pos
  {
    var l, k := ls[0], max - 1 - |c.name|;
    AtSplit(pkt, c.pos, Wire(l), WireAll(ls[1..]));
    CutStep(pkt, offset, max, c, l, k);
    c1 := c.(pos := c.pos + 1 + k, name := c.name + l[..k] + [DOT]);
    var all := c.name + Dotted(ls);
    assert all == c.name + l + [DOT] + Dotted(ls[1..]);
    assert forall i :: 0 <= i < max - 1 ==> (c.name + l[..k])[i] == all[i] == (h + [DOT])[i] == h[i];
    assert Stripped(c1.name) == c.name + l[..k];
  }

  /** What is left of a name in a full output, and where the scan through the rest ends. */
  ghost predicate Cropped(pkt: seq<u8>, offset: nat, max: nat, h: seq<u8>, z: nat, o: Outcome)
    requires z < |pkt| && 0 < max <= |h|
  {
    o.Finished? ==> o.name == h[..max - 1] && o.consumed == z - offset + (if pkt[z] == 0 then 1 else 2)
  }

  /** z is the first byte behind the full output that ends the name or points. */
  ghost predicate ScanEnds(pkt: seq<u8>, from: nat, z: nat) {
    from <= z < |pkt| && (pkt[z] != 0 ==> z + 1 < |pkt|) && !Plain(pkt[z])
    && forall i :: from <= i < z ==> Plain(pkt[i])
  }

  lemma FullCrops(pkt: seq<u8>, offset: nat, max: nat, c: Cursor, h: seq<u8>, z: nat, fuel: nat)
    requires Full(offset, max, c, h) && ScanEnds(pkt, offset + max, z)
    ensures Cropped(pkt, offset, max, h, z, Run(pkt, offset, max, c, fuel))
  {
    FullKeepsName(pkt, offset, max, c, fuel);
    FullScans(pkt, offset, max, c, z, fuel);
  }

  /** The next round of a filling: another label, or the last one, cut. */
  lemma FillNext(pkt: seq<u8>, offset: nat, max: nat, c: Cursor, ls: seq<seq<u8>>, h: seq<u8>, fuel: nat)
      returns (c1: Cursor, full: bool)
    requires Filling(pkt, offset, max, c, ls, h) && |c.name| < max && fuel > 0
    ensures Sane(offset, c1) && Run(pkt, offset, max, c, fuel) == Run(pkt, offset, max, c1, fuel - 1) && c.pos < c1.pos
    ensures if full then Full(offset, max, c1, h) else ls != [] && Filling(pkt, offset, max, c1, ls[1..], h)
  {
    assert |c.name + Dotted(ls)| == |h| + 1;
    full := |c.name| + |ls[0]| >= max;
    if full { c1 := FillLast(pkt, offset, max, c, ls, h); } else { c1 := FillStep(pkt, offset, max, c, ls, h); }
    RunMove(pkt, offset, max, c, c1, fuel);
  }

  lemma {:induction false} FillingCrops(pkt: seq<u8>, offset: nat, max: nat, c: Cursor, ls: seq<seq<u8>>, h: seq<u8>,
                                        z: nat, fuel: nat)
    requires Filling(pkt, offset, max, c, ls, h) && max > 0 && ScanEnds(pkt, offset + max, z)
    ensures Cropped(pkt, offset, max, h, z, Run(pkt, offset, max, c, fuel))
    decreases fuel
  {
    if |c.name| == max {
      FillingIsFull(pkt, offset, max, c, ls, h);
      FullCrops(pkt, offset, max, c, h, z, fuel);
    } else if fuel > 0 {
      var c1, full := FillNext(pkt, offset, max, c, ls, h, fuel);
      if full {
        FullCrops(pkt, offset, max, c1, h, z, fuel - 1);
      } else {
        FillingCrops(pkt, offset, max, c1, ls[1..], h, z, fuel - 1);
      }
    }
  }

  /** Where character k of the name stands, or the length that took its place. */
  ghost predicate SameKind(pkt: seq<u8>, offset: nat, h: seq<u8>, k: nat) {
    k < |h| && offset + 1 + k < |pkt| && Kind(pkt[offset + 1 + k]) == Kind(h[k])
  }

  /** The bytes behind the first are of the kinds of the characters; then comes the root. */
  ghost predicate SameKinds(pkt: seq<u8>, offset: nat, h: seq<u8>) {
    offset + 1 + |h| < |pkt| && pkt[offset + 1 + |h|] == 0 && forall k :: 0 <= k < |h| ==> SameKind(pkt, offset, h, k)
  }

  lemma LabelKinds(pkt: seq<u8>, offset: nat, ls: seq<seq<u8>>, h: seq<u8>, k: nat)
    requires Fit(ls) && At(pkt, offset, WireAll(ls)) && Dotted(ls) == h + [DOT] && |WireAll(ls)| == |h| + 1 && k < |h|
    ensures SameKind(pkt, offset, h, k)
  {
    KindsOf(ls, k + 1);
    assert pkt[offset + (k + 1)] == WireAll(ls)[k + 1];
  }

  lemma DottedParts(h: seq<u8>)
    requires h != [] && Fit(Parts(h))
    ensures Dotted(Parts(h)) == h + [DOT] && |WireAll(Parts(h))| == |h| + 1 && |Encode(h)| == |h| + 2
  {
    PartsJoin(h);
    DottedIsJoin(Parts(h));
    KindsOf(Parts(h), 0);
    BodyOfJoin(Parts(h));
  }

  /** Behind its first byte, an encoding has the kinds of bytes that the name has. */
  lemma EncodedKinds(pkt: seq<u8>, offset: nat, h: seq<u8>)
    requires h != [] && Fit(Parts(h)) && At(pkt, offset, Encode(h))
    ensures SameKinds(pkt, offset, h) && At(pkt, offset, WireAll(Parts(h)))
  {
    DottedParts(h);
    PartsJoin(h);
    EncodedAt(pkt, offset, Parts(h));
    assert pkt[offset + |WireAll(Parts(h))| + 0] == [0][0];
    forall k | 0 <= k < |h|
      ensures SameKind(pkt, offset, h, k)
    {
      LabelKinds(pkt, offset, Parts(h), h, k);
    }
  }

  /** The scan ends on the root exactly if no character that did not fit looks like an end or a pointer. */
  ghost predicate ScansThrough(h: seq<u8>, max: nat)
    requires 0 < max <= |h|
  {
    (forall k :: max - 1 <= k < |h| - 1 ==> Plain(h[k])) && h[|h| - 1] != 0
  }

  /** None of the characters left over reads as a pointer. */
  ghost predicate NoPointer(h: seq<u8>, max: nat)
    requires 0 < max
  {
    forall k :: max - 1 <= k < |h| ==> h[k] < 0xC0
  }

  lemma PlainThere(pkt: seq<u8>, offset: nat, h: seq<u8>, from: nat, i: nat)
    requires i <= |h| && SameKinds(pkt, offset, h) && forall k :: from <= k < i ==> Plain(h[k])
    ensures forall p :: offset + 1 + from <= p < offset + 1 + i ==> Plain(pkt[p])
  {
    forall p | offset + 1 + from <= p < offset + 1 + i
      ensures Plain(pkt[p])
    {
      var k := p - offset - 1;
      assert SameKind(pkt, offset, h, k) && Plain(h[k]);
    }
  }

  lemma ScanStops(pkt: seq<u8>, offset: nat, max: nat, h: seq<u8>, i: nat, z: nat)
    requires 0 < max <= |h| && SameKinds(pkt, offset, h) && z == offset + 1 + i
    requires max - 1 <= i <= |h| && (i < |h| ==> !Plain(h[i])) && forall k :: max - 1 <= k < i ==> Plain(h[k])
    ensures ScanEnds(pkt, offset + max, z)
    ensures pkt[z] == 0 <==> i == |h| || h[i] == 0
  {
    PlainThere(pkt, offset, h, max - 1, i);
    assert i < |h| ==> SameKind(pkt, offset, h, i);
  }

  lemma ScanOver(pkt: seq<u8>, offset: nat, max: nat, h: seq<u8>, i: nat) returns (z: nat)
    requires 0 < max <= |h| && SameKinds(pkt, offset, h)
    requires max - 1 <= i <= |h| && forall k :: max - 1 <= k < i ==> Plain(h[k])
    ensures ScanEnds(pkt, offset + max, z)
    ensures z - offset + (if pkt[z] == 0 then 1 else 2) == |h| + 2 <==> ScansThrough(h, max)
    ensures z <= offset + |h| + 1 && (NoPointer(h, max) ==> pkt[z] == 0)
    decreases |h| - i
  {
    if i < |h| && Plain(h[i]) {
      z := ScanOver(pkt, offset, max, h, i + 1);
    } else {
      z := offset + 1 + i;
      ScanStops(pkt, offset, max, h, i, z);
      assert i < |h| - 1 ==> !Plain(h[i]);
    }
  }

  /**
   An output that is too short gets the beginning of the name, and the number of consumed
   bytes is that of the encoding exactly if none of the characters left over reads as the end
   of a name or as a pointer; the last one may read as a pointer.
   */
  lemma ShortOutputConsumesIff(pkt: seq<u8>, offset: nat, max: nat, h: seq<u8>, fuel: nat)
    requires 0 < max <= |h| && Fit(Parts(h)) && At(pkt, offset, Encode(h))
    ensures var o := Decode(pkt, offset, max, fuel);
            o.Finished? ==> o.name == h[..max - 1] && (o.consumed == |Encode(h)| <==> ScansThrough(h, max))
  {
    EncodedKinds(pkt, offset, h);
    DottedParts(h);
    var z := ScanOver(pkt, offset, max, h, max - 1);
    assert [] + Dotted(Parts(h)) == h + [DOT];
    FillingCrops(pkt, offset, max, Cursor(offset, false, 0, []), Parts(h), h, z, fuel);
  }

  /** With a full output the scan ends at the first byte that ends a name. */
  lemma {:induction false} FullEnds(pkt: seq<u8>, offset: nat, max: nat, c: Cursor, z: nat, fuel: nat)
    requires Sane(offset, c) && !c.jumped && |c.name| == max && c.pos <= z < |pkt| && pkt[z] == 0 && fuel > z - c.pos
    requires forall i :: c.pos <= i < z ==> Plain(pkt[i])
    ensures Run(pkt, offset, max, c, fuel).Finished?
    decreases fuel
  {
    if c.pos == z {
      ZeroStops(pkt, offset, max, c, fuel);
    } else {
      var c1 := c.(pos := c.pos + 1);
      assert Plain(pkt[c.pos]) && Next(pkt, offset, max, c) == Move(c1);
      RunMove(pkt, offset, max, c, c1, fuel);
      FullEnds(pkt, offset, max, c1, z, fuel - 1);
    }
  }

  lemma {:induction false} FillingEnds(pkt: seq<u8>, offset: nat, max: nat, c: Cursor, ls: seq<seq<u8>>, h: seq<u8>,
                                       z: nat, fuel: nat, o: Outcome)
    requires Filling(pkt, offset, max, c, ls, h) && max > 0 && ScanEnds(pkt, offset + max, z) && pkt[z] == 0
    requires fuel > z - c.pos && o == Run(pkt, offset, max, c, fuel)
    ensures o.Finished?
    decreases fuel
  {
    if |c.name| == max {
      FullEnds(pkt, offset, max, c, z, fuel);
    } else {
      var c1, full := FillNext(pkt, offset, max, c, ls, h, fuel);
      if full {
        FullEnds(pkt, offset, max, c1, z, fuel - 1);
      } else {
        FillingEnds(pkt, offset, max, c1, ls[1..], h, z, fuel - 1, o);
      }
    }
  }

  /**
   Decoding into an output that is too short ends, within as many rounds as the encoding has
   bytes, if no character left over reads as a pointer. (Where one does, EndsIff decides.)
   */
  lemma ShortOutputEnds(pkt: seq<u8>, offset: nat, max: nat, h: seq<u8>)
    requires 0 < max <= |h| && Fit(Parts(h)) && At(pkt, offset, Encode(h)) && NoPointer(h, max)
    ensures var o := Decode(pkt, offset, max, |Encode(h)|);
            o.Finished? && o.name == h[..max - 1] && (o.consumed == |Encode(h)| <==> ScansThrough(h, max))
  {
    EncodedKinds(pkt, offset, h);
    DottedParts(h);
    var z := ScanOver(pkt, offset, max, h, max - 1);
    assert [] + Dotted(Parts(h)) == h + [DOT];
    var o := Decode(pkt, offset, max, |Encode(h)|);
    FillingEnds(pkt, offset, max, Cursor(offset, false, 0, []), Parts(h), h, z, |Encode(h)|, o);
    ShortOutputConsumesIff(pkt, offset, max, h, |Encode(h)|);
  }

  // ----------------------------------------------------------------------------- termination

  /** The cursor before round i, if there is such a round. */
  ghost function Reached(pkt: seq<u8>, offset: nat, max: nat, c: Cursor, i: nat): (r: Option<Cursor>)
    requires Sane(offset, c)
    ensures r.Some? ==> Sane(offset, r.value)
    decreases i
  {
    if i == 0 then Some(c)
    else
      var r := Next(pkt, offset, max, c);
      if r.Stop? then None else Reached(pkt, offset, max, r.c, i - 1)
  }

  ghost function Round(pkt: seq<u8>, offset: nat, max: nat, i: nat): Option<Cursor> {
    Reached(pkt, offset, max, Cursor(offset, false, 0, []), i)
  }

  lemma {:induction false} RunningIsReached(pkt: seq<u8>, offset: nat, max: nat, c: Cursor, fuel: nat)
    requires Sane(offset, c)
    ensures Run(pkt, offset, max, c, fuel) == Running <==> Reached(pkt, offset, max, c, fuel).Some?
    decreases fuel
  {
    var r := Next(pkt, offset, max, c);
    if fuel > 0 && r.Move? { RunningIsReached(pkt, offset, max, r.c, fuel - 1); }
  }

  lemma {:induction false} ReachedOn(pkt: seq<u8>, offset: nat, max: nat, c: Cursor, i: nat, j: nat)
    requires Sane(offset, c)
    ensures var r := Reached(pkt, offset, max, c, i);
            Reached(pkt, offset, max, c, i + j) == if r.None? then None else Reached(pkt, offset, max, r.value, j)
    decreases i
  {
    if i == 0 {
      assert Reached(pkt, offset, max, c, i) == Some(c);
    } else {
      var r := Next(pkt, offset, max, c);
      if r.Move? {
        ReachedOn(pkt, offset, max, r.c, i - 1, j);
        assert Reached(pkt, offset, max, c, i + j) == Reached(pkt, offset, max, r.c, i - 1 + j);
      }
    }
  }

  /** What a round depends on: the position and the length of the name. */
  ghost predicate Alike(c: Cursor, d: Cursor) {
    c.pos == d.pos && |c.name| == |d.name|
  }

  lemma CopiedLength(name: seq<u8>, pkt: seq<u8>, from: nat, k: nat)
    requires from + k <= |pkt|
    ensures |Copied(name, pkt, from, k)| == |name| + k
  {
    CopiedIs(name, pkt, from, k);
  }

  lemma AlikeStep(pkt: seq<u8>, offset: nat, max: nat, c: Cursor, d: Cursor)
    requires Sane(offset, c) && Sane(offset, d) && Alike(c, d)
    ensures var r, q := Next(pkt, offset, max, c), Next(pkt, offset, max, d);
            r.Move? == q.Move? && (r.Move? ==> Alike(r.c, q.c))
  {
    if c.pos < |pkt| && 0 < pkt[c.pos] < 0xC0 {
      var k := Room(c.name, pkt[c.pos], max);
      if c.pos + 1 + k <= |pkt| {
        CopiedLength(c.name, pkt, c.pos + 1, k);
        CopiedLength(d.name, pkt, c.pos + 1, k);
      }
    }
  }

  lemma {:induction false} AlikeRuns(pkt: seq<u8>, offset: nat, max: nat, c: Cursor, d: Cursor, m: nat)
    requires Sane(offset, c) && Sane(offset, d) && Alike(c, d)
    ensures var r, q := Reached(pkt, offset, max, c, m), Reached(pkt, offset, max, d, m);
            r.Some? == q.Some? && (r.Some? ==> Alike(r.value, q.value))
    decreases m
  {
    AlikeStep(pkt, offset, max, c, d);
    var r, q := Next(pkt, offset, max, c), Next(pkt, offset, max, d);
    if m > 0 && r.Move? { AlikeRuns(pkt, offset, max, r.c, q.c, m - 1); }
  }

  /** Two rounds alike repeat for ever. */
  lemma {:induction false} RepetitionNeverEnds(pkt: seq<u8>, offset: nat, max: nat, i: nat, j: nat, n: nat)
    requires i < j && Round(pkt, offset, max, i).Some? && Round(pkt, offset, max, j).Some?
    requires Alike(Round(pkt, offset, max, i).value, Round(pkt, offset, max, j).value)
    ensures Round(pkt, offset, max, n).Some?
    decreases n
  {
    var c := Cursor(offset, false, 0, []);
    if n <= j {
      ReachedOn(pkt, offset, max, c, n, j - n);
    } else {
      RepetitionNeverEnds(pkt, offset, max, i, j, n - (j - i));
      ReachedOn(pkt, offset, max, c, i, n - j);
      ReachedOn(pkt, offset, max, c, j, n - j);
      AlikeRuns(pkt, offset, max, Round(pkt, offset, max, i).value, Round(pkt, offset, max, j).value, n - j);
    }
  }

  /** The name never outgrows the output. */
  lemma NameFits(pkt: seq<u8>, offset: nat, max: nat, c: Cursor)
    requires Sane(offset, c) && |c.name| <= max
    ensures var r := Next(pkt, offset, max, c); r.Move? ==> c.pos < |pkt| && |r.c.name| <= max
  {
    if c.pos < |pkt| && 0 < pkt[c.pos] < 0xC0 {
      var k := Room(c.name, pkt[c.pos], max);
      if c.pos + 1 + k <= |pkt| { CopiedLength(c.name, pkt, c.pos + 1, k); }
    }
  }

  lemma {:induction false} ReachedFits(pkt: seq<u8>, offset: nat, max: nat, c: Cursor, i: nat)
    requires Sane(offset, c) && |c.name| <= max && Reached(pkt, offset, max, c, i + 1).Some?
    ensures Reached(pkt, offset, max, c, i).Some?
    ensures var r := Reached(pkt, offset, max, c, i).value; r.pos < |pkt| && |r.name| <= max
    decreases i
  {
    NameFits(pkt, offset, max, c);
    var r := Next(pkt, offset, max, c);
    if i > 0 { ReachedFits(pkt, offset, max, r.c, i - 1); }
  }

  /** More numbers than values: two are equal. */
  lemma {:induction false} Pigeonhole(s: seq<nat>, n: nat) returns (i: nat, j: nat)
    requires |s| > n && forall k :: 0 <= k < |s| ==> s[k] < n
    ensures i < j < |s| && s[i] == s[j]
    decreases |s|
  {
    if n == 0 {
      assert s[0] < 0;
    }
    var last := |s| - 1;
    if k :| 0 <= k < last && s[k] == s[last] {
      i, j := k, last;
    } else {
      // Where the greatest value stands, the last one takes its place.
      var t := seq(last, k requires 0 <= k < last => if s[k] == n - 1 then s[last] else s[k]);
      i, j := Pigeonhole(t, n - 1);
    }
  }

  /** p * w */
  ghost function Times(p: nat, w: nat): nat {
    if p == 0 then 0 else w + Times(p - 1, w)
  }

  lemma {:induction false} TimesIs(p: nat, w: nat)
    ensures Times(p, w) == p * w
  {
    if p > 0 {
      TimesIs(p - 1, w);
      assert (p - 1) * w + w == p * w;
    }
  }

  lemma {:induction false} TimesGrows(p: nat, q: nat, w: nat)
    requires p < q
    ensures Times(p, w) + w <= Times(q, w)
    decreases q
  {
    if p < q - 1 { TimesGrows(p, q - 1, w); }
  }

  /** Position and length of a name in one number. */
  ghost function Code(p: nat, q: nat, w: nat): nat {
    Times(p, w) + q
  }

  lemma CodeInjective(p: nat, q: nat, p2: nat, q2: nat, w: nat)
    requires q < w && q2 < w && Code(p, q, w) == Code(p2, q2, w)
    ensures p == p2 && q == q2
  {
    if p < p2 {
      TimesGrows(p, p2, w);
    } else if p > p2 {
      TimesGrows(p2, p, w);
    }
  }

  /** The rounds after which a walk that goes on has repeated itself. */
  ghost function Bound(pkt: seq<u8>, max: nat): nat {
    Times(|pkt|, max + 1)
  }

  /** The code of the cursor before round i of a walk that goes on. */
  ghost function RoundCode(pkt: seq<u8>, offset: nat, max: nat, i: nat): nat {
    var r := Round(pkt, offset, max, i);
    if r.Some? then Code(r.value.pos, |r.value.name|, max + 1) else 0
  }

  lemma RoundFits(pkt: seq<u8>, offset: nat, max: nat, i: nat)
    requires Round(pkt, offset, max, Bound(pkt, max) + 1).Some? && i <= Bound(pkt, max)
    ensures Round(pkt, offset, max, i).Some? && |Round(pkt, offset, max, i).value.name| <= max
    ensures RoundCode(pkt, offset, max, i) < Bound(pkt, max)
  {
    var c := Cursor(offset, false, 0, []);
    ReachedOn(pkt, offset, max, c, i + 1, Bound(pkt, max) - i);
    ReachedFits(pkt, offset, max, c, i);
    var r := Round(pkt, offset, max, i).value;
    TimesGrows(r.pos, |pkt|, max + 1);
  }

  lemma LongWalkRepeats(pkt: seq<u8>, offset: nat, max: nat) returns (i: nat, j: nat)
    requires Round(pkt, offset, max, Bound(pkt, max) + 1).Some?
    ensures i < j && Round(pkt, offset, max, i).Some? && Round(pkt, offset, max, j).Some?
    ensures Alike(Round(pkt, offset, max, i).value, Round(pkt, offset, max, j).value)
  {
    var n := Bound(pkt, max);
    var codes := seq(n + 1, k requires 0 <= k <= n => RoundCode(pkt, offset, max, k));
    forall k | 0 <= k < |codes|
      ensures codes[k] < n
    {
      RoundFits(pkt, offset, max, k);
    }
    i, j := Pigeonhole(codes, n);
    RoundFits(pkt, offset, max, i);
    RoundFits(pkt, offset, max, j);
    var c, d := Round(pkt, offset, max, i).value, Round(pkt, offset, max, j).value;
    CodeInjective(c.pos, |c.name|, d.pos, |d.name|, max + 1);
  }

  /** Some two rounds start at the same position with names of the same length. */
  ghost predicate Repeats(pkt: seq<u8>, offset: nat, max: nat) {
    exists i: nat, j: nat :: i < j && Round(pkt, offset, max, i).Some? && Round(pkt, offset, max, j).Some?
                             && Alike(Round(pkt, offset, max, i).value, Round(pkt, offset, max, j).value)
  }

  /**
   Decoding ends exactly if no two rounds start at the same position with names of the same
   length; and if it ends at all, it does so within |pkt| * (max + 1) + 1 rounds.
   */
  lemma EndsIff(pkt: seq<u8>, offset: nat, max: nat)
    ensures (exists fuel :: Decode(pkt, offset, max, fuel) != Running) <==> !Repeats(pkt, offset, max)
    ensures (exists fuel :: Decode(pkt, offset, max, fuel) != Running)
       <==> Decode(pkt, offset, max, |pkt| * (max + 1) + 1) != Running
  {
    TimesIs(|pkt|, max + 1);
    var c := Cursor(offset, false, 0, []);
    RunningIsReached(pkt, offset, max, c, Bound(pkt, max) + 1);
    if Decode(pkt, offset, max, Bound(pkt, max) + 1) == Running {
      var i, j := LongWalkRepeats(pkt, offset, max);
    }
    if i: nat, j: nat :| i < j && Round(pkt, offset, max, i).Some? && Round(pkt, offset, max, j).Some?
                         && Alike(Round(pkt, offset, max, i).value, Round(pkt, offset, max, j).value) {
      forall fuel
        ensures Decode(pkt, offset, max, fuel) == Running
      {
        RepetitionNeverEnds(pkt, offset, max, i, j, fuel);
        RunningIsReached(pkt, offset, max, c, fuel);
      }
    }
  }
}
