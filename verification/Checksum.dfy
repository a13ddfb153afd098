/**
 The Internet checksum of kernal/net/net.c (section 1 of RFC 1071) and the IPv4 header that
 ip4_send builds with it.
 */
module Checksum {
  import opened Words

  /** The sum of the 16-bit words of some bytes, low byte first; an odd byte at the end counts as a word. */
  function WordSum(b: seq<u8>): nat {
    if |b| == 0 then 0
    else if |b| == 1 then b[0]
    else Word(b[0], b[1]) + WordSum(b[2..])
  }

  function Word(lo: u8, hi: u8): (w: nat)
    ensures w < 0x1_0000
  {
    (lo as int) + 256 * (hi as int)
  }

  /** What a 32-bit sum keeps of x. */
  ghost function Kept(x: nat): (r: u32)
    decreases x
  {
    if x < 0x1_0000_0000 then x else Kept(x - 0x1_0000_0000)
  }

  /** Ones' complement: a carry out of 16 bits comes back in at the bottom, so 65536 counts as 1. */
  ghost function Fold(x: nat): (f: u16)
    decreases x
  {
    if x < 0x1_0000 then x else Fold(x - 0xFFFF)
  }

  ghost function Checksum(b: seq<u8>): (c: u16) {
    0xFFFF - Fold(Kept(WordSum(b)))
  }

  /** The bytes before n, those at odd places counted 256 times. */
  ghost function ByteSum(b: seq<u8>, n: nat): nat
    requires n <= |b|
  {
    if n == 0 then 0 else ByteSum(b, n - 1) + (b[n - 1] as int) * if n % 2 == 1 then 1 else 256
  }

  /** The sum of the words is that of all bytes by their place, an odd one at the end included. */
  lemma {:induction false} WordSumIsByteSum(b: seq<u8>)
    ensures WordSum(b) == ByteSum(b, |b|)
    decreases |b|
  {
    if |b| >= 2 {
      WordSumIsByteSum(b[2..]);
      ByteSumSplits(b, |b|);
    } else if |b| == 1 {
      assert ByteSum(b, 1) == ByteSum(b, 0) + (b[0] as int);
    }
  }

  lemma {:induction false} ByteSumSplits(b: seq<u8>, n: nat)
    requires 2 <= n <= |b|
    ensures ByteSum(b, n) == Word(b[0], b[1]) + ByteSum(b[2..], n - 2)
  {
    if n > 2 {
      ByteSumSplits(b, n - 1);
    } else {
      assert ByteSum(b, 2) == ByteSum(b, 1) + 256 * (b[1] as int) && ByteSum(b, 1) == ByteSum(b, 0) + (b[0] as int);
    }
  }

  /** A block of odd length has the checksum of the block with a zero byte behind it. */
  lemma OddIsPadded(b: seq<u8>)
    requires |b| % 2 == 1
    ensures Checksum(b + [0]) == Checksum(b)
  {
    WordSumIsByteSum(b);
    WordSumIsByteSum(b + [0]);
    SamePrefix(b, b + [0], |b|);
  }

  lemma {:induction false} SamePrefix(b: seq<u8>, c: seq<u8>, n: nat)
    requires n <= |b| && n <= |c| && b[..n] == c[..n]
    ensures ByteSum(b, n) == ByteSum(c, n)
  {
    if n > 0 {
      assert b[..n - 1] == b[..n][..n - 1] && c[..n - 1] == c[..n][..n - 1];
      assert b[n - 1] == b[..n][n - 1] && c[n - 1] == c[..n][n - 1];
      SamePrefix(b, c, n - 1);
    }
  }

  /** Whole turns do not matter, except that 0 and 65535 differ. */
  lemma {:induction false} FoldTurns(x: nat, k: nat)
    requires x > 0
    ensures Fold(x + 0xFFFF * k) == Fold(x)
  {
    if k > 0 { FoldTurns(x, k - 1); }
  }

  /** Two foldings of the halves are enough for any 32-bit sum. */
  lemma TwoFoldings(sum: u32)
    ensures var once := sum / 0x1_0000 + sum % 0x1_0000; (once + once / 0x1_0000) % 0x1_0000 == Fold(sum)
  {
    var hi, lo := sum / 0x1_0000, sum % 0x1_0000;
    if hi + lo > 0 {
      assert sum == (hi + lo) + 0xFFFF * hi;
      FoldTurns(hi + lo, hi);
      SecondFolding(hi + lo);
    }
  }

  lemma SecondFolding(x: nat)
    requires x <= 0x1_FFFE
    ensures (x + x / 0x1_0000) % 0x1_0000 == Fold(x)
  {
    if x >= 0x1_0000 {
      assert x / 0x1_0000 == 1;
      assert Fold(x) == x - 0xFFFF;
    }
  }

  /** ip_checksum */
  method IpChecksum(b: seq<u8>) returns (c: u16)
    ensures c == Checksum(b)
  {
    var sum := SumWords(b);
    c := FoldTwice(sum);
  }

  /** The end of ip_checksum. */
  method FoldTwice(sum: u32) returns (c: u16)
    ensures c == 0xFFFF - Fold(sum)
  {
    TwoFoldings(sum);
    var folded: int := sum / 0x1_0000 + sum % 0x1_0000;
    folded := folded + folded / 0x1_0000;
    c := 0xFFFF - folded % 0x1_0000;
  }

  /** The loop of ip_checksum and its odd byte. */
  method SumWords(b: seq<u8>) returns (sum: u32)
    ensures sum == Kept(WordSum(b))
  {
    var i := 0;
    sum := 0;
    while i + 1 < |b|
      invariant 0 <= i <= |b| && Kept(sum + WordSum(b[i..])) == Kept(WordSum(b))
    {
      SumFrom(b, i);
      sum := Add(sum, Word(b[i], b[i + 1]), WordSum(b[i + 2..]));
      i := i + 2;
    }
    if i < |b| { sum := Add(sum, b[i], 0); }
  }

  /** sum += w in 32 bits, with more to come. */
  method Add(sum: u32, w: nat, ghost rest: nat) returns (r: u32)
    requires w < 0x1_0000
    ensures Kept(r + rest) == Kept(sum + (w + rest)) && r == Kept(sum + w)
  {
    r := Wrap(sum + w);
    KeptOnce(sum + w);
  }

  lemma SumFrom(b: seq<u8>, i: nat)
    requires i + 1 < |b|
    ensures WordSum(b[i..]) == Word(b[i], b[i + 1]) + WordSum(b[i + 2..])
  {
    assert b[i..][2..] == b[i + 2..];
  }

  // ------------------------------------------------------------------------ the self-check

  /** The sum and the complement of its fold come to minus zero. */
  lemma {:induction false} ComplementFolds(s: nat)
    ensures Fold(s + (0xFFFF - Fold(s))) == 0xFFFF
    decreases s
  {
    if s >= 0x1_0000 {
      ComplementFolds(s - 0xFFFF);
      var x := s + (0xFFFF - Fold(s));
      assert Fold(x) == Fold(x - 0xFFFF);
    }
  }

  /** Storing word w at an even offset changes the sum by just that word. */
  lemma {:induction false} StoreWord(b: seq<u8>, at: nat, lo: u8, hi: u8)
    requires at % 2 == 0 && at + 2 <= |b|
    ensures WordSum(b[at := lo][at + 1 := hi]) == WordSum(b) - Word(b[at], b[at + 1]) + Word(lo, hi)
  {
    var r := b[at := lo][at + 1 := hi];
    if at == 0 {
      assert r[2..] == b[2..];
    } else {
      StoreWord(b[2..], at - 2, lo, hi);
      assert r[2..] == b[2..][at - 2 := lo][at - 1 := hi];
    }
  }

  /** The block with a checksum in the word at an even offset. */
  function Stored(b: seq<u8>, at: nat, c: u16): seq<u8>
    requires at + 2 <= |b|
  {
    b[at := c % 256][at + 1 := c / 256]
  }

  /** Adding to a wrapped sum is adding to what was kept. */
  lemma {:induction false} KeptPlus(x: nat, c: u16)
    ensures var k := Kept(x) + c; Kept(x + c) == if k < 0x1_0000_0000 then k else k - 0x1_0000_0000
    decreases x
  {
    if x >= 0x1_0000_0000 { KeptPlus(x - 0x1_0000_0000, c); } else { KeptOnce(x + c); }
  }

  /**
   The self-check: with its checksum stored in a zeroed word, the whole verifies, exactly
   when what 32 bits keep of the sum leaves room for the checksum.
   */
  lemma SelfCheckIff(b: seq<u8>, at: nat)
    requires at % 2 == 0 && at + 2 <= |b| && b[at] == b[at + 1] == 0
    ensures Checksum(Stored(b, at, Checksum(b))) == 0 <==> Kept(WordSum(b)) + Checksum(b) < 0x1_0000_0000
  {
    StoredSum(b, at, Checksum(b));
    KeptPlus(WordSum(b), Checksum(b));
    ComplementKept(Kept(WordSum(b)), Checksum(b));
  }

  lemma StoredSum(b: seq<u8>, at: nat, c: u16)
    requires at % 2 == 0 && at + 2 <= |b| && b[at] == b[at + 1] == 0
    ensures WordSum(Stored(b, at, c)) == WordSum(b) + c
  {
    StoreWord(b, at, c % 256, c / 256);
  }

  lemma ComplementKept(s: u32, c: u16)
    requires c == 0xFFFF - Fold(s)
    ensures Fold(if s + c < 0x1_0000_0000 then s + c else s + c - 0x1_0000_0000) == 0xFFFF <==> s + c < 0x1_0000_0000
  {
    ComplementFolds(s);
  }

  lemma KeptOnce(x: nat)
    requires x < 0x2_0000_0000
    ensures Kept(x) == if x < 0x1_0000_0000 then x else x - 0x1_0000_0000
  {
  }

  /** Sums that verify and differ by at most one word do not lie on two sides of a wrap. */
  lemma NoWrapBetween(x: nat, d: u16)
    requires Fold(Kept(x)) == 0xFFFF && Fold(Kept(x + d)) == 0xFFFF
    ensures Kept(x + d) == Kept(x) + d
  {
    KeptPlus(x, d);
  }

  /** A change of one word is noticed, unless it swaps the two forms of zero. */
  lemma SingleChangeIsDetected(b: seq<u8>, at: nat, lo: u8, hi: u8)
    requires at % 2 == 0 && at + 2 <= |b| && Checksum(b) == 0
    ensures var was, now := Word(b[at], b[at + 1]), Word(lo, hi);
            Checksum(b[at := lo][at + 1 := hi]) == 0
            ==> was == now || (was == 0 && now == 0xFFFF) || (was == 0xFFFF && now == 0)
  {
    var r := b[at := lo][at + 1 := hi];
    StoreWord(b, at, lo, hi);
    if Checksum(r) == 0 {
      var x, y := WordSum(b), WordSum(r);
      if x <= y { NoWrapBetween(x, y - x); } else { NoWrapBetween(y, x - y); }
      TurnsApart(Kept(x), Kept(y));
    }
  }

  /** Sums that both verify differ by whole turns. */
  lemma TurnsApart(x: nat, y: nat)
    requires Fold(x) == Fold(y) && -0xFFFF <= y - x <= 0xFFFF
    ensures y == x || y == x + 0xFFFF || x == y + 0xFFFF
  {
    var j := Turns(x);
    var k := Turns(y);
  }

  lemma {:induction false} SumBound(b: seq<u8>)
    ensures WordSum(b) <= 0xFFFF * |b|
  {
    if |b| >= 2 { SumBound(b[2..]); }
  }

  lemma {:induction false} Turns(x: nat) returns (k: nat)
    ensures x == Fold(x) + 0xFFFF * k
    decreases x
  {
    if x < 0x1_0000 {
      k := 0;
    } else {
      k := Turns(x - 0xFFFF);
      k := k + 1;
    }
  }

  // ------------------------------------------------------------------------- the IPv4 header

  /** Two and four bytes, high byte first: what HTONS and HTONL store. */
  function Big16(x: u16): (b: seq<u8>)
    ensures |b| == 2
  {
    [x / 256, x % 256]
  }

  function Big32(x: u32): (b: seq<u8>)
    ensures |b| == 4
  {
    Big16(x / 0x1_0000) + Big16(x % 0x1_0000)
  }

  /** The header with its checksum field zero. */
  function BareHeader(len: nat, id: u16, proto: u8, src: u32, dst: u32): (h: seq<u8>)
    ensures |h| == 20 && h[10] == h[11] == 0
  {
    [0x45, 0] + Big16((20 + len) % 0x1_0000) + Big16(id) + [0, 0, 64, proto, 0, 0] + Big32(src) + Big32(dst)
  }

  /** A number at its place in a header, high byte first. */
  function Read16(h: seq<u8>, at: nat): nat
    requires at + 2 <= |h|
  {
    256 * (h[at] as int) + h[at + 1]
  }

  /** The fields of an IPv4 header without options, at the places of section 3.1 of RFC 791. */
  ghost predicate FieldsAre(h: seq<u8>, length: u16, id: u16, proto: u8, src: u32, dst: u32) {
    |h| == 20 && h[0] / 16 == 4 && h[0] % 16 == 5 && h[1] == 0
    && Read16(h, 2) == length && Read16(h, 4) == id && Read16(h, 6) == 0 && h[8] == 64 && h[9] == proto
    && 0x1_0000 * Read16(h, 12) + Read16(h, 14) == src && 0x1_0000 * Read16(h, 16) + Read16(h, 18) == dst
  }

  /** Any header that differs from this one in its checksum field only has these fields. */
  lemma HeaderReadsBack(h: seq<u8>, len: nat, id: u16, proto: u8, src: u32, dst: u32)
    requires |h| == 20 && h[10 := 0][11 := 0] == BareHeader(len, id, proto, src, dst)
    ensures FieldsAre(h, (20 + len) % 0x1_0000, id, proto, src, dst)
  {
    var g := BareHeader(len, id, proto, src, dst);
    forall i | 0 <= i < 20 && i != 10 && i != 11
      ensures h[i] == g[i]
    {
      assert h[10 := 0][11 := 0][i] == h[i];
    }
    BareFields(len, id, proto, src, dst);
  }

  lemma BareFields(len: nat, id: u16, proto: u8, src: u32, dst: u32)
    ensures FieldsAre(BareHeader(len, id, proto, src, dst), (20 + len) % 0x1_0000, id, proto, src, dst)
  {
    var g := BareHeader(len, id, proto, src, dst);
    var total := (20 + len) % 0x1_0000;
    var head := [0x45, 0] + Big16(total) + Big16(id) + [0, 0, 64, proto, 0, 0];
    assert g == head + Big32(src) + Big32(dst) && |head| == 12;
    assert head[2..4] == Big16(total) && head[4..6] == Big16(id);
    Inside(head, g, 2, 4);
    Inside(head, g, 4, 6);
    BigReadsBack(g, 2, total);
    BigReadsBack(g, 4, id);
    assert g[12..] == Big32(src) + Big32(dst);
    HalvesAt(g, 12, src);
    HalvesAt(g, 16, dst);
    BigReadsBack(g, 12, src / 0x1_0000);
    BigReadsBack(g, 14, src % 0x1_0000);
    BigReadsBack(g, 16, dst / 0x1_0000);
    BigReadsBack(g, 18, dst % 0x1_0000);
  }

  lemma Inside(head: seq<u8>, g: seq<u8>, i: nat, j: nat)
    requires head <= g && i <= j <= |head|
    ensures g[i..j] == head[i..j]
  {
  }

  lemma HalvesAt(g: seq<u8>, at: nat, x: u32)
    requires at + 4 <= |g| && g[at..at + 4] == Big32(x)
    ensures g[at..at + 2] == Big16(x / 0x1_0000) && g[at + 2..at + 4] == Big16(x % 0x1_0000)
  {
    assert g[at..at + 2] == g[at..at + 4][..2] && g[at + 2..at + 4] == g[at..at + 4][2..];
  }

  lemma BigReadsBack(h: seq<u8>, at: nat, x: u16)
    requires at + 2 <= |h| && h[at..at + 2] == Big16(x)
    ensures Read16(h, at) == x
  {
    assert h[at..at + 2][0] == h[at] && h[at..at + 2][1] == h[at + 1];
  }

  lemma HeaderSum(h: seq<u8>)
    requires |h| == 20
    ensures WordSum(h) <= 20 * 0xFFFF
  {
    SumBound(h);
  }

  class Sender {
    /** ip_id_counter */
    var nextId: u16

    constructor ()
      ensures nextId == 1
    {
      nextId := 1;
    }

    /** The frame that ip4_send hands to the driver, once the next hop's address is known. */
    method BuildPacket(dstMac: seq<u8>, srcMac: seq<u8>, src: u32, dst: u32, proto: u8, payload: seq<u8>)
        returns (pkt: seq<u8>)
      requires |dstMac| == |srcMac| == 6
      modifies this
      ensures nextId == (old(nextId) + 1) % 0x1_0000
      ensures |pkt| == 34 + |payload| && pkt[..14] == dstMac + srcMac + [8, 0] && pkt[34..] == payload
      ensures Checksum(pkt[14..34]) == 0
      ensures pkt[14..34][10 := 0][11 := 0] == BareHeader(|payload|, old(nextId), proto, src, dst)
      ensures FieldsAre(pkt[14..34], (20 + |payload|) % 0x1_0000, old(nextId), proto, src, dst)
    {
      var id := nextId;
      nextId := (nextId + 1) % 0x1_0000;
      var header := BareHeader(|payload|, id, proto, src, dst);
      var c := IpChecksum(header);
      HeaderSum(header);
      SelfCheckIff(header, 10);
      var whole := Stored(header, 10, c);
      pkt := dstMac + srcMac + [8, 0] + whole + payload;
      assert pkt[14..34] == whole;
      assert whole[10 := 0][11 := 0] == header;
      HeaderReadsBack(whole, |payload|, id, proto, src, dst);
    }
  }
}
