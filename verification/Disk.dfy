/**
 The disk as the file readers see it through ide_read: for each sector address its 512 bytes,
 or nothing when the drive reports an error. Bytes, words and tables read from it.
 */
module Disk {
  import opened Words

  type Sector = s: seq<u8> | |s| == 512 witness seq(512, i => 0)

  type Image = u32 -> Option<Sector>

  /** The contents of n sectors from lba on, if all of them can be read. */
  function Sectors(d: Image, lba: u32, n: nat): (r: Option<seq<u8>>)
    ensures r.Some? ==> |r.value| == 512 * n
  {
    if n == 0 then Some([]) else Both(Sectors(d, lba, n - 1), One(d, Wrap(lba + (n - 1))))
  }

  /** Two reads in a row are one longer read. */
  function Both(a: Option<seq<u8>>, b: Option<seq<u8>>): Option<seq<u8>> {
    if a.Some? && b.Some? then Some(a.value + b.value) else None
  }

  lemma BothAssociates(a: Option<seq<u8>>, b: Option<seq<u8>>, c: Option<seq<u8>>)
    ensures Both(Both(a, b), c) == Both(a, Both(b, c))
    ensures Both(a, Some([])) == a
  {
    if a.Some? {
      assert a.value + [] == a.value;
      if b.Some? && c.Some? { assert a.value + b.value + c.value == a.value + (b.value + c.value); }
    }
  }

  function One(d: Image, lba: u32): (r: Option<seq<u8>>)
    ensures r.Some? ==> |r.value| == 512
  {
    if d(lba).Some? then Some(d(lba).value) else None
  }

  lemma {:induction false} SectorsSplit(d: Image, lba: u32, a: nat, b: nat)
    ensures Sectors(d, lba, a + b) == Both(Sectors(d, lba, a), Sectors(d, Wrap(lba + a), b))
  {
    BothAssociates(Sectors(d, lba, a), None, None);
    if b > 0 {
      SectorsSplit(d, lba, a, b - 1);
      WrapAgain(lba + a, b - 1);
      BothAssociates(Sectors(d, lba, a), Sectors(d, Wrap(lba + a), b - 1), One(d, Wrap(lba + a + (b - 1))));
    }
  }

  /** A read fails if a shorter one fails. */
  lemma {:induction false} FailureStays(d: Image, lba: u32, i: nat, n: nat)
    requires i <= n && Sectors(d, lba, i).None?
    ensures Sectors(d, lba, n).None?
  {
    if i < n { FailureStays(d, lba, i, n - 1); }
  }

  lemma WrapAgain(a: nat, b: nat)
    ensures Wrap(Wrap(a) + b) == Wrap(a + b)
  {
  }

  /** The concatenation of blocks. */
  function Flatten<T>(blocks: seq<seq<T>>): seq<T> {
    if blocks == [] then [] else Flatten(blocks[..|blocks| - 1]) + blocks[|blocks| - 1]
  }

  ghost predicate Uniform<T>(blocks: seq<seq<T>>, n: nat) {
    forall i :: 0 <= i < |blocks| ==> |blocks[i]| == n
  }

  lemma {:induction false} FlattenLength<T>(blocks: seq<seq<T>>, n: nat)
    requires Uniform(blocks, n)
    ensures |Flatten(blocks)| == |blocks| * n
  {
    if blocks != [] {
      FlattenLength(blocks[..|blocks| - 1], n);
      assert |blocks| * n == (|blocks| - 1) * n + n;
    }
  }

  /** Where element j of block i ends up. */
  lemma {:induction false} FlattenAt<T>(blocks: seq<seq<T>>, n: nat, i: nat, j: nat)
    requires Uniform(blocks, n) && i < |blocks| && j < n
    ensures |Flatten(blocks)| == |blocks| * n && i * n + j < |blocks| * n
    ensures Flatten(blocks)[i * n + j] == blocks[i][j]
  {
    var m := |blocks| - 1;
    FlattenLength(blocks, n);
    FlattenLength(blocks[..m], n);
    RowBefore(n, i, j, m);
    if i < m {
      FlattenAt(blocks[..m], n, i, j);
    }
  }

  lemma RowBefore(n: nat, i: nat, j: nat, m: nat)
    requires j < n && i <= m
    ensures i * n + j < (m + 1) * n && (i < m ==> i * n + j < m * n) && (m + 1) * n == m * n + n
  {
    assert (m + 1) * n == i * n + n + (m - i) * n;
    if i < m { assert m * n == i * n + n + (m - i - 1) * n; }
  }

  /** Which block of size n position pos is in. */
  ghost function Quot(pos: nat, n: nat): (q: nat)
    requires n > 0
    decreases pos
  {
    if pos < n then 0 else 1 + Quot(pos - n, n)
  }

  /** Where in that block. */
  ghost function Rem(pos: nat, n: nat): (r: nat)
    requires n > 0
    ensures r < n
    decreases pos
  {
    if pos < n then pos else Rem(pos - n, n)
  }

  lemma {:induction false} QuotRem(pos: nat, n: nat)
    requires n > 0
    ensures pos == Quot(pos, n) * n + Rem(pos, n)
    decreases pos
  {
    if pos >= n {
      QuotRem(pos - n, n);
      assert Quot(pos, n) * n == Quot(pos - n, n) * n + n;
    }
  }

  lemma QuotRemUnique(n: nat, q: nat, r: nat)
    requires r < n
    ensures Quot(q * n + r, n) == q && Rem(q * n + r, n) == r
  {
    var x := q * n + r;
    QuotRem(x, n);
    OneWay(n, q, r, Quot(x, n), Rem(x, n));
  }

  /** There is one way to write a position as block and offset. */
  lemma OneWay(n: nat, q: nat, r: nat, q2: nat, r2: nat)
    requires r < n && r2 < n && q * n + r == q2 * n + r2
    ensures q == q2 && r == r2
  {
    assert (q2 - q) * n == q2 * n - q * n;
    Multiple(q2 - q, n);
  }

  /** A few bytes further on in the same block. */
  lemma QuotRemInside(pos: nat, n: nat, k: nat)
    requires n > 0 && k < n - Rem(pos, n)
    ensures Quot(pos + k, n) == Quot(pos, n) && Rem(pos + k, n) == Rem(pos, n) + k
  {
    QuotRem(pos, n);
    QuotRemUnique(n, Quot(pos, n), Rem(pos, n) + k);
  }

  /** The rest of the block, and one is at the start of the next. */
  lemma QuotRemNext(pos: nat, n: nat)
    requires n > 0
    ensures Quot(pos + (n - Rem(pos, n)), n) == Quot(pos, n) + 1 && Rem(pos + (n - Rem(pos, n)), n) == 0
  {
    QuotRem(pos, n);
    assert (Quot(pos, n) + 1) * n == Quot(pos, n) * n + n;
    QuotRemUnique(n, Quot(pos, n) + 1, 0);
  }

  /** pos / n and pos % n */
  method DivMod(pos: nat, n: nat) returns (q: nat, r: nat)
    requires n > 0
    ensures q == Quot(pos, n) <= pos && r == Rem(pos, n)
  {
    q, r := pos / n, pos % n;
    QuotRemUnique(n, q, r);
    QuotAtMost(pos, n);
  }

  lemma {:induction false} QuotAtMost(pos: nat, n: nat)
    requires n > 0
    ensures Quot(pos, n) <= pos
    decreases pos
  {
    if pos >= n { QuotAtMost(pos - n, n); }
  }

  /** Quotient and remainder name block and offset. */
  lemma BlockOf(pos: nat, n: nat)
    requires n > 0
    ensures pos == (pos / n) * n + pos % n && 0 <= pos % n < n && pos / n >= 0
  {
  }

  lemma Multiple(d: int, n: nat)
    ensures (d >= 1 ==> d * n >= n) && (d <= -1 ==> d * n <= 0 - n)
  {
    assert d >= 1 ==> (d - 1) * n >= 0;
    assert d <= -1 ==> (d + 1) * n <= 0;
  }

  /** A little-endian 32-bit word. */
  function Le32(b: seq<u8>, at: nat): u32
    requires at + 4 <= |b|
  {
    (b[at] as int) + 0x100 * (b[at + 1] as int) + 0x1_0000 * (b[at + 2] as int) + 0x100_0000 * (b[at + 3] as int)
  }

  /** A block read as an array of words. */
  function Table(b: seq<u8>): (t: seq<u32>)
    requires |b| % 4 == 0
    ensures |t| == |b| / 4 && forall i :: 0 <= i < |t| ==> t[i] == Le32(b, 4 * i)
  {
    seq(|b| / 4, i requires 0 <= i < |b| / 4 => Le32(b, 4 * i))
  }

  /** Everything outside [lo, hi) is as before. */
  twostate predicate Outside(buf: array<u8>, lo: int, hi: int)
    reads buf
  {
    forall k :: 0 <= k < buf.Length && !(lo <= k < hi) ==> buf[k] == old(buf[k])
  }

  /** memcpy of src to buf + at */
  method Copy(buf: array<u8>, at: nat, src: seq<u8>)
    requires at + |src| <= buf.Length
    modifies buf
    ensures buf[at..at + |src|] == src && Outside(buf, at, at + |src|)
  {
    var i := 0;
    while i < |src|
      invariant 0 <= i <= |src|
      invariant forall k :: 0 <= k < i ==> buf[at + k] == src[k]
      invariant forall k :: 0 <= k < buf.Length && !(at <= k < at + i) ==> buf[k] == old(buf[k])
    {
      buf[at + i] := src[i];
      i := i + 1;
    }
  }

  /** ide_read: count sectors from lba to buf + at; stops at the first sector that cannot be read. */
  method IdeRead(d: Image, lba: u32, count: u8, buf: array<u8>, at: nat) returns (ok: bool)
    requires at + 512 * count <= buf.Length
    modifies buf
    ensures Outside(buf, at, at + 512 * count)
    ensures ok <==> Sectors(d, lba, count).Some?
    ensures ok ==> buf[at..at + 512 * count] == Sectors(d, lba, count).value
  {
    var s := 0;
    while s < count
      invariant 0 <= s <= count && Sectors(d, lba, s).Some?
      invariant buf[at..at + 512 * s] == Sectors(d, lba, s).value
      invariant Outside(buf, at, at + 512 * count)
    {
      var sector := d(Wrap(lba + s));
      if sector.None? {
        FailureStays(d, lba, s + 1, count);
        return false;
      }
      AppendSector(buf, at, 512 * s, sector.value);
      s := s + 1;
    }
    ok := true;
  }

  /** One sector behind the n bytes already at buf + at. */
  method AppendSector(buf: array<u8>, at: nat, n: nat, sector: Sector)
    requires at + n + 512 <= buf.Length
    modifies buf
    ensures buf[at..at + (n + 512)] == old(buf[at..at + n]) + sector && Outside(buf, at + n, at + n + 512)
  {
    Copy(buf, at + n, sector);
    assert buf[at..at + (n + 512)] == buf[at..at + n] + buf[at + n..at + n + 512];
  }

  // ------------------------------------------------------- reading a file made of blocks

  /** A file as its readers find it: block i, if it can be found and read; all have n bytes. */
  type Blocks = nat -> Option<seq<u8>>

  ghost predicate Sized(blocks: Blocks, n: nat) {
    n > 0 && forall i :: blocks(i).Some? ==> |blocks(i).value| == n
  }

  ghost function ByteOf(blocks: Blocks, n: nat, pos: nat): Option<u8>
    requires Sized(blocks, n)
  {
    var block := blocks(Quot(pos, n));
    if block.None? then None else Some(block.value[Rem(pos, n)])
  }

  ghost predicate Readable(blocks: Blocks, count: nat) {
    forall i :: 0 <= i < count ==> blocks(i).Some?
  }

  /** The first count blocks, end to end. */
  ghost function Content(blocks: Blocks, count: nat): seq<u8>
    requires Readable(blocks, count)
  {
    Flatten(seq(count, i requires 0 <= i < count => blocks(i).value))
  }

  /** Looking bytes up block by block is indexing into the concatenation. */
  lemma ByteOfContent(blocks: Blocks, n: nat, count: nat, pos: nat)
    requires Sized(blocks, n) && Readable(blocks, count) && pos < count * n
    ensures |Content(blocks, count)| == count * n && ByteOf(blocks, n, pos) == Some(Content(blocks, count)[pos])
  {
    var q, r := Quot(pos, n), Rem(pos, n);
    QuotRem(pos, n);
    if q >= count { RowBefore(n, count, 0, q); }
    FlattenAt(seq(count, i requires 0 <= i < count => blocks(i).value), n, q, r);
  }

  lemma ByteInBlock(blocks: Blocks, n: nat, pos: nat, k: nat)
    requires Sized(blocks, n) && k < n - Rem(pos, n) && blocks(Quot(pos, n)).Some?
    ensures ByteOf(blocks, n, pos + k) == Some(blocks(Quot(pos, n)).value[Rem(pos, n) + k])
  {
    QuotRemInside(pos, n, k);
  }

  /** Byte lookup by a reader whose file positions wrap at 2^32. */
  ghost function WrappedBytes(blocks: Blocks, n: nat): nat -> Option<u8>
    requires Sized(blocks, n)
  {
    (pos: nat) => ByteOf(blocks, n, Wrap(pos))
  }

  ghost predicate Fills4G(m: nat, n: nat) {
    m * n == 0x1_0000_0000
  }

  /** When blocks fill the 32-bit range evenly, a chunk within a block stays below 2^32. */
  lemma ChunkBelow4G(n: nat, m: nat, pos: u32, k: nat)
    requires n > 0 && Fills4G(m, n) && k < n - Rem(pos, n)
    ensures pos + k < 0x1_0000_0000
  {
    var q := Quot(pos, n);
    QuotRem(pos, n);
    if q >= m { RowBefore(n, m, 0, q); }
    RowBefore(n, q, Rem(pos, n) + k, m - 1);
  }

  lemma WrapInside(n: nat, m: nat, x: nat, k: nat)
    requires n > 0 && Fills4G(m, n) && k < n - Rem(Wrap(x), n)
    ensures Wrap(x + k) == Wrap(x) + k
  {
    ChunkBelow4G(n, m, Wrap(x), k);
    WrapAgain(x, k);
  }

  lemma WrappedByte(blocks: Blocks, n: nat, x: nat, k: nat)
    requires Sized(blocks, n) && Wrap(x + k) == Wrap(x) + k
    requires k < n - Rem(Wrap(x), n) && blocks(Quot(Wrap(x), n)).Some?
    ensures WrappedBytes(blocks, n)(x + k) == Some(blocks(Quot(Wrap(x), n)).value[Rem(Wrap(x), n) + k])
  {
    ByteInBlock(blocks, n, Wrap(x), k);
  }

  /** The block found for position x holds the bytes from x on, up to its end. */
  lemma WrappedRest(blocks: Blocks, n: nat, m: nat, x: nat, rest: seq<u8>)
    requires Sized(blocks, n) && Fills4G(m, n) && blocks(Quot(Wrap(x), n)).Some?
    requires rest == blocks(Quot(Wrap(x), n)).value[Rem(Wrap(x), n)..]
    ensures Holds(WrappedBytes(blocks, n), x, rest)
  {
    forall k | 0 <= k < |rest|
      ensures WrappedBytes(blocks, n)(x + k) == Some(rest[k])
    {
      WrapInside(n, m, x, k);
      WrappedByte(blocks, n, x, k);
    }
  }

  /** Byte lookup by a reader that walks the blocks in order. */
  ghost function PlainBytes(blocks: Blocks, n: nat): nat -> Option<u8>
    requires Sized(blocks, n)
  {
    (pos: nat) => ByteOf(blocks, n, pos)
  }

  lemma PlainRest(blocks: Blocks, n: nat, x: nat, rest: seq<u8>)
    requires Sized(blocks, n) && blocks(Quot(x, n)).Some?
    requires rest == blocks(Quot(x, n)).value[Rem(x, n)..]
    ensures Holds(PlainBytes(blocks, n), x, rest)
  {
    forall k | 0 <= k < |rest|
      ensures PlainBytes(blocks, n)(x + k) == Some(rest[k])
    {
      ByteInBlock(blocks, n, x, k);
    }
  }

  lemma BelowWrap(blocks: Blocks, n: nat, limit: nat)
    requires Sized(blocks, n) && limit <= 0x1_0000_0000
    ensures forall pos :: 0 <= pos < limit ==> WrappedBytes(blocks, n)(pos) == ByteOf(blocks, n, pos)
  {
    forall pos | 0 <= pos < limit
      ensures WrappedBytes(blocks, n)(pos) == ByteOf(blocks, n, pos)
    {
      WrapBelow(pos);
    }
  }

  /** Two files that agree on their first count blocks have the same content. */
  lemma SameContent(a: Blocks, b: Blocks, count: nat)
    requires Readable(a, count) && forall i :: 0 <= i < count ==> a(i) == b(i)
    ensures Readable(b, count) && Content(a, count) == Content(b, count)
  {
    assert seq(count, i requires 0 <= i < count => a(i).value) == seq(count, i requires 0 <= i < count => b(i).value);
  }

  /** The number of bytes both file systems set out to read; the end of the range wraps at 2^32. */
  function Wanted(offset: u32, size: u32, fileSize: u32): (n: nat)
    requires offset < fileSize
    ensures n <= size
  {
    if Wrap(offset + size) > fileSize then fileSize - offset else size
  }

  /** The range is clipped to the file exactly when its end does not wrap. */
  lemma WantedClipsIff(offset: u32, size: u32, fileSize: u32)
    requires offset < fileSize
    ensures Wanted(offset, size, fileSize) == Min(size, fileSize - offset) <==> offset + size < 0x1_0000_0000
  {
  }

  /** (int32_t) x */
  function Signed(x: u32): (r: int)
    ensures -0x8000_0000 <= r < 0x8000_0000 && (r - x) % 0x1_0000_0000 == 0
  {
    if x < 0x8000_0000 then x else x - 0x1_0000_0000
  }

  /** The first n bytes of data are those of the file from offset on. */
  ghost predicate DeliveredTo(byte: nat -> Option<u8>, offset: nat, data: seq<u8>, n: nat) {
    n <= |data| && forall k :: 0 <= k < n ==> byte(offset + k) == Some(data[k])
  }

  /** The longest readable part of the wanted bytes was delivered. */
  ghost predicate Delivered(byte: nat -> Option<u8>, offset: nat, wanted: nat, data: seq<u8>, n: nat) {
    n <= wanted && DeliveredTo(byte, offset, data, n) && (n < wanted ==> byte(offset + n) == None)
  }

  /** The bytes of the file from position x on begin with chunk. */
  ghost predicate Holds(byte: nat -> Option<u8>, x: nat, chunk: seq<u8>) {
    forall k :: 0 <= k < |chunk| ==> byte(x + k) == Some(chunk[k])
  }

  /** The copy both readers make of the rest of a block, if they want so much. */
  method CopyChunk(ghost byte: nat -> Option<u8>, ghost offset: nat, wanted: u32, n: u32, rest: seq<u8>, buf: array<u8>)
    returns (can: u32)
    requires n < wanted <= buf.Length && Holds(byte, offset + n, rest) && DeliveredTo(byte, offset, buf[..], n)
    modifies buf
    ensures can == Min(|rest|, wanted - n)
    ensures DeliveredTo(byte, offset, buf[..], n + can) && Outside(buf, n, n + can)
  {
    can := if |rest| > wanted - n then wanted - n else |rest|;
    ghost var before := buf[..];
    Copy(buf, n, rest[..can]);
    ChunkDelivered(byte, offset, n, rest[..can], before, buf[..]);
  }

  lemma ChunkDelivered(byte: nat -> Option<u8>, offset: nat, n: nat, chunk: seq<u8>, data: seq<u8>, data': seq<u8>)
    requires DeliveredTo(byte, offset, data, n) && |data'| == |data| && n + |chunk| <= |data|
    requires Holds(byte, offset + n, chunk)
    requires (forall k :: 0 <= k < n ==> data'[k] == data[k]) && data'[n..n + |chunk|] == chunk
    ensures DeliveredTo(byte, offset, data', n + |chunk|)
  {
    forall k | 0 <= k < n + |chunk|
      ensures byte(offset + k) == Some(data'[k])
    {
      if k >= n {
        assert byte(offset + n + (k - n)) == Some(chunk[k - n]);
        assert data'[n..n + |chunk|][k - n] == data'[k];
      }
    }
  }

  /** When the wanted bytes are all there, what was delivered is that slice of the file. */
  lemma DeliveredIsSlice(blocks: Blocks, size: nat, count: nat, byte: nat -> Option<u8>, offset: nat, wanted: nat,
                         data: seq<u8>, n: nat)
    requires Sized(blocks, size) && Readable(blocks, count) && offset + wanted <= count * size
    requires forall pos :: offset <= pos < offset + wanted ==> byte(pos) == ByteOf(blocks, size, pos)
    requires Delivered(byte, offset, wanted, data, n)
    ensures |Content(blocks, count)| == count * size
    ensures n == wanted && data[..n] == Content(blocks, count)[offset..offset + wanted]
  {
    if wanted > 0 {
      ByteOfContent(blocks, size, count, offset);
    } else {
      FlattenLength(seq(count, i requires 0 <= i < count => blocks(i).value), size);
    }
    if n < wanted { ByteOfContent(blocks, size, count, offset + n); }
    forall k | 0 <= k < n
      ensures data[k] == Content(blocks, count)[offset + k]
    {
      ByteOfContent(blocks, size, count, offset + k);
      assert byte(offset + k) == Some(data[k]);
    }
  }
}