/**
 Reading files of an ext2 volume, as kernal/fs/ext2.c does: blocks of an inode are found
 through twelve direct entries, one single-indirect and one double-indirect table.
 */
module Ext2 {
  import opened Words
  import opened Disk

  /** A mount, with one inode table per block group. */
  datatype Volume = Volume(disk: Image, blockSize: nat, inodesPerGroup: u32, inodeSize: u32, inodeTables: seq<u32>)

  datatype Inode = Inode(mode: u16, size: u32, blocks: seq<u32>)

  /** What the code takes from the superblock on trust: a block size 1024 << log, and sane inode sizes. */
  ghost predicate Sound(v: Volume, log: nat) {
    log <= 21 && v.blockSize == 1024 * Pow2(log)
    && v.inodesPerGroup > 0 && 128 <= v.inodeSize <= v.blockSize && |v.inodeTables| < 0x1_0000_0000
  }

  /** What that means: whole sectors, and blocks that never straddle the end of the 32-bit range. */
  ghost predicate Usable(v: Volume) {
    v.blockSize >= 1024 && v.blockSize % 512 == 0 && (exists m: nat :: Fills4G(m, v.blockSize))
    && v.inodesPerGroup > 0 && 128 <= v.inodeSize <= v.blockSize && |v.inodeTables| < 0x1_0000_0000
  }

  /** ptrs_per_block */
  function PerBlock(v: Volume): (p: nat) {
    v.blockSize / 4
  }

  lemma {:induction false} Pow2Sum(a: nat, b: nat)
    ensures Pow2(a + b) == Pow2(a) * Pow2(b)
  {
    if a > 0 { Pow2Sum(a - 1, b); }
  }

  lemma Exchange(a: nat, b: nat, c: nat)
    ensures a * (b * c) == b * (a * c)
  {
  }

  lemma SoundIsUsable(v: Volume, log: nat)
    requires Sound(v, log)
    ensures Usable(v)
  {
    var m := Pow2(22 - log);
    Pow2Sum(22 - log, log);
    assert Pow2(11) == 2048;
    assert Pow2(22) == 0x40_0000;
    Exchange(m, 1024, Pow2(log));
    assert Fills4G(m, v.blockSize);
  }

  // -------------------------------------------------------------------------------- blocks

  /** Where ext2_read_block starts: the byte offset wraps at 2^32. */
  function Lba(v: Volume, nr: u32): (lba: u32) {
    var bs := v.blockSize;
    Wrap(nr * bs) / 512
  }

  function BlockAt(v: Volume, nr: u32): (r: Option<seq<u8>>)
    requires Usable(v)
    ensures r.Some? ==> |r.value| == v.blockSize
  {
    Sectors(v.disk, Lba(v, nr), v.blockSize / 512)
  }

  /** The code reads the sectors that belong to block nr exactly when the block lies below 4 GB. */
  lemma BlockAddressExactIff(v: Volume, nr: u32)
    requires Usable(v)
    ensures Lba(v, nr) == nr * (v.blockSize / 512) <==> nr * v.blockSize < 0x1_0000_0000
  {
    var x, s := nr * v.blockSize, v.blockSize / 512;
    assert x == 512 * (nr * s);
    if x >= 0x1_0000_0000 { assert Wrap(x) < x - 512; }
  }

  method ReadBlock(v: Volume, nr: u32, buf: array<u8>) returns (ok: bool)
    requires Usable(v) && buf.Length >= v.blockSize
    modifies buf
    ensures Outside(buf, 0, v.blockSize)
    ensures ok <==> BlockAt(v, nr).Some?
    ensures ok ==> buf[..v.blockSize] == BlockAt(v, nr).value
  {
    var lba, sectors := Lba(v, nr), v.blockSize / 512;
    var i := 0;
    while i < sectors
      invariant 0 <= i <= sectors && Outside(buf, 0, v.blockSize)
      invariant Sectors(v.disk, lba, i).Some? && buf[..512 * i] == Sectors(v.disk, lba, i).value
    {
      var got := NextSector(v.disk, lba, i, buf);
      if !got {
        FailureStays(v.disk, lba, i + 1, sectors);
        return false;
      }
      i := i + 1;
    }
    ok := true;
  }

  /** One sector more of a block. */
  method NextSector(d: Image, lba: u32, i: nat, buf: array<u8>) returns (got: bool)
    requires 512 * (i + 1) <= buf.Length && Sectors(d, lba, i).Some? && buf[..512 * i] == Sectors(d, lba, i).value
    modifies buf
    ensures Outside(buf, 512 * i, 512 * (i + 1)) && (got <==> Sectors(d, lba, i + 1).Some?)
    ensures got ==> buf[..512 * (i + 1)] == Sectors(d, lba, i + 1).value
  {
    SectorsSplit(d, lba, i, 1);
    ghost var before := buf[..512 * i];
    got := IdeRead(d, Wrap(lba + i), 1, buf, i * 512);
    assert buf[..512 * (i + 1)] == before + buf[512 * i..512 * (i + 1)];
  }

  /** Reading a block into a buffer allocated for it. */
  method LoadBlock(v: Volume, nr: u32) returns (r: Option<seq<u8>>)
    requires Usable(v)
    ensures r == BlockAt(v, nr)
  {
    var buf := new u8[v.blockSize];
    var ok := ReadBlock(v, nr, buf);
    if !ok { return None; }
    r := Some(buf[..v.blockSize]);
  }

  // -------------------------------------------------------------------------------- inodes

  /** The fields the reader uses, at their offsets in the on-disk inode. */
  function ParseInode(b: seq<u8>, at: nat): (i: Inode)
    requires at + 128 <= |b|
    ensures |i.blocks| == 15
  {
    Inode((b[at] as int) + 0x100 * (b[at + 1] as int), Le32(b, at + 4),
        seq(15, k requires 0 <= k < 15 => Le32(b, at + 40 + 4 * k)))
  }

  function InodesPerBlock(v: Volume): nat
    requires v.inodeSize > 0
  {
    v.blockSize / v.inodeSize
  }

  /** Block within the group's table, and byte offset within that block. */
  function InodeSlot(v: Volume, index: nat): (s: (nat, nat))
    requires 0 < v.inodeSize <= v.blockSize
  {
    FitsOnce(v.blockSize, v.inodeSize);
    (index / InodesPerBlock(v), (index % InodesPerBlock(v)) * v.inodeSize)
  }

  lemma FitsOnce(n: nat, s: nat)
    requires 0 < s <= n
    ensures n / s >= 1
  {
  }

  lemma SlotInside(v: Volume, index: nat)
    requires 128 <= v.inodeSize <= v.blockSize
    ensures InodeSlot(v, index).1 + v.inodeSize <= v.blockSize
  {
    var n, s := v.blockSize, v.inodeSize;
    FitsOnce(n, s);
    BlockOf(n, s);
    BlockOf(index, n / s);
    RowBefore(s, index % (n / s), 0, n / s - 1);
  }

  /**
   Slot and table position agree, so that inode index starts at byte index * inodeSize, exactly
   if inodes fill blocks evenly or the inode lies in the first block.
   */
  lemma InodesAreContiguous(v: Volume, index: nat)
    requires 0 < v.inodeSize <= v.blockSize
    ensures InodeSlot(v, index).0 * v.blockSize + InodeSlot(v, index).1 == index * v.inodeSize
       <==> v.blockSize % v.inodeSize == 0 || index < InodesPerBlock(v)
  {
    var n, s := v.blockSize, v.inodeSize;
    var q := n / s;
    FitsOnce(n, s);
    BlockOf(n, s);
    BlockOf(index, q);
    SlotGap(index / q, index % q, q, s, n % s);
    QuotientIsZeroIff(index, q);
  }

  lemma SlotGap(a: nat, b: nat, q: nat, s: nat, t: nat)
    ensures a * (q * s + t) + b * s == (a * q + b) * s + a * t
    ensures a * t == 0 <==> a == 0 || t == 0
  {
    assert a * (q * s + t) == a * (q * s) + a * t;
    assert a * (q * s) == a * q * s;
    if a > 0 && t > 0 { assert a * t >= t; }
  }

  lemma QuotientIsZeroIff(x: nat, q: nat)
    requires q > 0
    ensures x / q == 0 <==> x < q
  {
    BlockOf(x, q);
    if x / q >= 1 { SmallerRows(1, x / q, q); }
  }

  /** The block group of an inode; inode numbers start at 1. */
  function GroupOf(v: Volume, ino: u32): nat
    requires v.inodesPerGroup > 0 && ino > 0
  {
    (ino - 1) / v.inodesPerGroup
  }

  function IndexOf(v: Volume, ino: u32): nat
    requires v.inodesPerGroup > 0 && ino > 0
  {
    (ino - 1) % v.inodesPerGroup
  }

  /** Block number and byte offset of inode ino, if there is such an inode. */
  function InodeLocation(v: Volume, ino: u32): (r: Option<(u32, nat)>)
    requires Usable(v)
    ensures r.Some? ==> r.value.1 + 128 <= v.blockSize
  {
    if ino == 0 || GroupOf(v, ino) >= |v.inodeTables| then None
    else
      SlotInside(v, IndexOf(v, ino));
      var slot := InodeSlot(v, IndexOf(v, ino));
      Some((Wrap(v.inodeTables[GroupOf(v, ino)] + slot.0), slot.1))
  }

  function InodeAt(v: Volume, ino: u32): (r: Option<Inode>)
    requires Usable(v)
    ensures r.Some? ==> |r.value.blocks| == 15
  {
    var at := InodeLocation(v, ino);
    if at.None? || BlockAt(v, at.value.0).None? then None
    else Some(ParseInode(BlockAt(v, at.value.0).value, at.value.1))
  }

  method ReadInode(v: Volume, ino: u32) returns (r: Option<Inode>)
    requires Usable(v)
    ensures r == InodeAt(v, ino)
  {
    var at := InodeLocation(v, ino);
    if at.None? { return None; }
    var block := LoadBlock(v, at.value.0);
    if block.None? { return None; }
    r := Some(ParseInode(block.value, at.value.1));
  }

  // -------------------------------------------------------------------------- the block tree

  /** dind_end, in 32 bits */
  function TreeEnd(v: Volume): u32 {
    Wrap(12 + PerBlock(v) + Wrap(PerBlock(v) * PerBlock(v)))
  }

  /** Entry i of the table in block nr, if that block can be read. */
  function Entry(v: Volume, nr: Option<u32>, i: nat): Option<u32>
    requires Usable(v) && i < PerBlock(v)
  {
    if nr.None? then None
    else
      var block := BlockAt(v, nr.value);
      if block.None? then None
      else
        TableFits(block.value, v.blockSize);
        Some(Table(block.value)[i])
  }

  lemma TableFits(b: seq<u8>, size: int)
    requires |b| == size && size % 512 == 0
    ensures |b| % 4 == 0 && |b| / 4 == size / 4
  {
    FourDivides(size / 512, size);
  }

  lemma FourDivides(q: nat, size: int)
    requires size == 512 * q
    ensures size % 4 == 0
  {
    assert size == 4 * (128 * q);
  }

  lemma TreeEndAtMost(v: Volume)
    ensures TreeEnd(v) <= 12 + PerBlock(v) + PerBlock(v) * PerBlock(v)
  {
    WrapAtMost(PerBlock(v) * PerBlock(v));
    WrapAtMost(12 + PerBlock(v) + Wrap(PerBlock(v) * PerBlock(v)));
  }

  lemma RowInside(rel: nat, p: nat)
    requires p > 0
    ensures 0 <= rel % p < p && 0 <= rel / p && (rel < p * p ==> rel / p < p)
  {
    BlockOf(rel, p);
    if rel < p * p && rel / p >= p { RowBefore(p, p, 0, rel / p); }
  }

  lemma TreeEndBound(v: Volume, idx: nat)
    requires Usable(v) && 12 + PerBlock(v) <= idx
    ensures idx < TreeEnd(v) ==> 0 <= (idx - 12 - PerBlock(v)) / PerBlock(v) < PerBlock(v)
    ensures 0 <= (idx - 12 - PerBlock(v)) % PerBlock(v) < PerBlock(v)
  {
    TreeEndAtMost(v);
    RowInside(idx - 12 - PerBlock(v), PerBlock(v));
  }

  /** The block number that ext2_read_inode_block finds for block idx of an inode. */
  function BlockNumber(v: Volume, ino: Inode, idx: nat): Option<u32>
    requires Usable(v) && |ino.blocks| == 15
  {
    var p := PerBlock(v);
    if idx < 12 then Some(ino.blocks[idx])
    else if idx < 12 + p then Entry(v, Some(ino.blocks[12]), idx - 12)
    else if idx < TreeEnd(v) then
      TreeEndBound(v, idx);
      Entry(v, Entry(v, Some(ino.blocks[13]), (idx - 12 - p) / p), (idx - 12 - p) % p)
    else None
  }

  function FileBlock(v: Volume, ino: Inode, idx: nat): (r: Option<seq<u8>>)
    requires Usable(v) && |ino.blocks| == 15
    ensures r.Some? ==> |r.value| == v.blockSize
  {
    var nr := BlockNumber(v, ino, idx);
    if nr.None? then None else BlockAt(v, nr.value)
  }

  /** Entry i of the table in block nr, read into a buffer of its own. */
  method ReadEntry(v: Volume, nr: u32, i: nat) returns (r: Option<u32>)
    requires Usable(v) && i < PerBlock(v)
    ensures r == Entry(v, Some(nr), i)
  {
    var table := LoadBlock(v, nr);
    if table.None? { return None; }
    r := Some(Le32(table.value, 4 * i));
  }

  /** ext2_read_inode_block */
  method ReadInodeBlock(v: Volume, ino: Inode, idx: u32, buf: array<u8>) returns (ok: bool)
    requires Usable(v) && |ino.blocks| == 15 && buf.Length >= v.blockSize
    modifies buf
    ensures Outside(buf, 0, v.blockSize)
    ensures ok <==> FileBlock(v, ino, idx).Some?
    ensures ok ==> buf[..v.blockSize] == FileBlock(v, ino, idx).value
  {
    var p := PerBlock(v);
    if idx < 12 {
      ok := ReadBlock(v, ino.blocks[idx], buf);
      return;
    }
    if idx < 12 + p {
      var nr := ReadEntry(v, ino.blocks[12], idx - 12);
      if nr.None? { return false; }
      ok := ReadBlock(v, nr.value, buf);
      return;
    }
    TreeEndBound(v, idx);
    if idx < TreeEnd(v) {
      var first := ReadEntry(v, ino.blocks[13], (idx - 12 - p) / p);
      if first.None? { return false; }
      var nr := ReadEntry(v, first.value, (idx - 12 - p) % p);
      if nr.None? { return false; }
      ok := ReadBlock(v, nr.value, buf);
      return;
    }
    ok := false;
  }

  // --------------------------------------------------- the file as a flat sequence of blocks

  /** All entries of the table in block nr; unreadable tables have unknown entries. */
  ghost function Entries(v: Volume, nr: Option<u32>): (t: seq<Option<u32>>)
    requires Usable(v)
    ensures |t| == PerBlock(v)
  {
    seq(PerBlock(v), i requires 0 <= i < PerBlock(v) => Entry(v, nr, i))
  }

  ghost function SecondLevel(v: Volume, nr: u32): (t: seq<seq<Option<u32>>>)
    requires Usable(v)
    ensures |t| == PerBlock(v) && Uniform(t, PerBlock(v))
  {
    seq(PerBlock(v), i requires 0 <= i < PerBlock(v) => Entries(v, Entry(v, Some(nr), i)))
  }

  /** The leaves of the block tree, left to right: direct, single-indirect, double-indirect. */
  ghost function Leaves(v: Volume, ino: Inode): seq<Option<u32>>
    requires Usable(v) && |ino.blocks| == 15
  {
    seq(12, i requires 0 <= i < 12 => Some(ino.blocks[i])) + Entries(v, Some(ino.blocks[12]))
        + Flatten(SecondLevel(v, ino.blocks[13]))
  }

  lemma LeavesLength(v: Volume, ino: Inode)
    requires Usable(v) && |ino.blocks| == 15
    ensures |Leaves(v, ino)| == 12 + PerBlock(v) + PerBlock(v) * PerBlock(v)
  {
    FlattenLength(SecondLevel(v, ino.blocks[13]), PerBlock(v));
  }

  /** dind_end is where the tree ends exactly when the block size is below 256 KB; else the square wraps. */
  lemma TreeEndExactIff(v: Volume)
    requires Usable(v)
    ensures TreeEnd(v) == 12 + PerBlock(v) + PerBlock(v) * PerBlock(v) <==> v.blockSize < 0x4_0000
  {
    SquareWraps(PerBlock(v));
  }

  lemma SquareWraps(p: nat)
    ensures Wrap(12 + p + Wrap(p * p)) == 12 + p + p * p <==> p < 0x1_0000
  {
    if p < 0x1_0000 { SquareBound(p, 0xFFFF); } else { SquareBound(0x1_0000, p); }
  }

  lemma SquareBound(a: nat, b: nat)
    requires a <= b
    ensures a * a <= b * b
  {
    assert a * a <= a * b <= b * b;
  }

  /**
   The three-way case split with its quotient and remainder is indexing into the flat list
   of leaves, unless dind_end wraps and is consulted.
   */
  lemma BlockNumberIsLeaf(v: Volume, ino: Inode, idx: nat)
    requires Usable(v) && |ino.blocks| == 15 && (v.blockSize < 0x4_0000 || idx < 12 + PerBlock(v))
             && idx < 12 + PerBlock(v) + PerBlock(v) * PerBlock(v)
    ensures |Leaves(v, ino)| == 12 + PerBlock(v) + PerBlock(v) * PerBlock(v)
    ensures BlockNumber(v, ino, idx) == Leaves(v, ino)[idx]
  {
    var p := PerBlock(v);
    LeavesLength(v, ino);
    TreeEndExactIff(v);
    if idx >= 12 + p {
      var rel := idx - 12 - p;
      TreeEndBound(v, idx);
      BlockOf(rel, p);
      FlattenAt(SecondLevel(v, ino.blocks[13]), p, rel / p, rel % p);
      assert Leaves(v, ino)[idx] == Flatten(SecondLevel(v, ino.blocks[13]))[rel];
    }
  }

  /** The blocks of a file in order: its leaves, each looked up on the disk. */
  ghost function LeafBlocks(v: Volume, ino: Inode): Blocks
    requires Usable(v) && |ino.blocks| == 15
  {
    (i: nat) => if i < |Leaves(v, ino)| && Leaves(v, ino)[i].Some? then BlockAt(v, Leaves(v, ino)[i].value) else None
  }

  /** The same blocks as ext2_read_inode_block finds them. */
  ghost function FoundBlocks(v: Volume, ino: Inode): (b: Blocks)
    requires Usable(v) && |ino.blocks| == 15
    ensures Sized(b, v.blockSize)
  {
    (i: nat) => FileBlock(v, ino, i)
  }

  lemma FoundAreLeaves(v: Volume, ino: Inode, i: nat)
    requires Usable(v) && |ino.blocks| == 15 && i < |Leaves(v, ino)|
    requires v.blockSize < 0x4_0000 || i < 12 + PerBlock(v)
    ensures FoundBlocks(v, ino)(i) == LeafBlocks(v, ino)(i)
  {
    LeavesLength(v, ino);
    BlockNumberIsLeaf(v, ino, i);
  }

  // ------------------------------------------------------------------------------- reading

  /** The byte the reader takes for position pos: file offsets wrap at 2^32. */
  ghost function Bytes(v: Volume, ino: Inode): nat -> Option<u8>
    requires Usable(v) && |ino.blocks| == 15
  {
    WrappedBytes(FoundBlocks(v, ino), v.blockSize)
  }

  /**
   ext2_vfs_read of inode inum; -1 when the inode cannot be read, or when kmalloc gives no
   block buffer, which memory tells.
   */
  method VfsRead(v: Volume, inum: u32, offset: u32, size: u32, buf: array<u8>, memory: bool) returns (r: int)
    requires Usable(v) && size <= buf.Length
    modifies buf
    ensures InodeAt(v, inum).None? ==> r == -1 && buf[..] == old(buf[..])
    ensures InodeAt(v, inum).Some? && offset >= InodeAt(v, inum).value.size ==> r == 0 && buf[..] == old(buf[..])
    ensures InodeAt(v, inum).Some? && offset < InodeAt(v, inum).value.size && !memory ==>
              r == -1 && buf[..] == old(buf[..])
    ensures InodeAt(v, inum).Some? && offset < InodeAt(v, inum).value.size && memory ==>
              var ino := InodeAt(v, inum).value;
              exists n: u32 ::
                r == Signed(n) && Outside(buf, 0, n)
                && Delivered(Bytes(v, ino), offset, Wanted(offset, size, ino.size), buf[..], n)
  {
    var i := ReadInode(v, inum);
    if i.None? { return -1; }
    var ino := i.value;
    if offset >= ino.size { return 0; }
    if !memory { return -1; }
    var n := ReadBytes(v, ino, offset, Wanted(offset, size, ino.size), buf);
    r := Signed(n);
  }

  /** The loop of ext2_vfs_read. */
  method ReadBytes(v: Volume, ino: Inode, offset: u32, wanted: u32, buf: array<u8>) returns (n: u32)
    requires Usable(v) && |ino.blocks| == 15 && wanted <= buf.Length
    modifies buf
    ensures Delivered(Bytes(v, ino), offset, wanted, buf[..], n) && Outside(buf, 0, n)
  {
    var block := new u8[v.blockSize];
    n := 0;
    while n < wanted
      invariant n <= wanted && fresh(block) && block.Length == v.blockSize
      invariant DeliveredTo(Bytes(v, ino), offset, buf[..], n) && Outside(buf, 0, n)
    {
      var can := ReadChunk(v, ino, offset, wanted, n, block, buf);
      if can == 0 { return; }
      n := n + can;
    }
  }

  /** One round of the loop: up to the end of a block, or of the wanted bytes; 0 when the block cannot be read. */
  method ReadChunk(v: Volume, ino: Inode, offset: u32, wanted: u32, n: u32, block: array<u8>, buf: array<u8>)
      returns (can: u32)
    requires Usable(v) && |ino.blocks| == 15 && n < wanted <= buf.Length && block.Length == v.blockSize && block != buf
    requires DeliveredTo(Bytes(v, ino), offset, buf[..], n)
    modifies block, buf
    ensures n + can <= wanted && DeliveredTo(Bytes(v, ino), offset, buf[..], n + can) && Outside(buf, n, n + can)
    ensures can == 0 ==> Bytes(v, ino)(offset + n) == None
  {
    var ok, at := LoadFound(v, ino, offset + n, block);
    if !ok { return 0; }
    can := CopyChunk(Bytes(v, ino), offset, wanted, n, block[at..], buf);
  }

  /** The block for file position x, and the offset in it. */
  method LoadFound(v: Volume, ino: Inode, x: nat, block: array<u8>) returns (ok: bool, at: nat)
    requires Usable(v) && |ino.blocks| == 15 && block.Length == v.blockSize
    modifies block
    ensures at < v.blockSize && if ok then Holds(Bytes(v, ino), x, block[at..]) else Bytes(v, ino)(x) == None
  {
    var idx;
    idx, at := DivMod(Wrap(x), v.blockSize);
    ok := ReadInodeBlock(v, ino, idx, block);
    assert FoundBlocks(v, ino)(idx) == FileBlock(v, ino, idx);
    assert block[..] == block[..v.blockSize];
    if ok { RestFound(v, ino, x, block[at..]); }
  }

  lemma RestFound(v: Volume, ino: Inode, x: nat, rest: seq<u8>)
    requires Usable(v) && |ino.blocks| == 15 && FoundBlocks(v, ino)(Quot(Wrap(x), v.blockSize)).Some?
    requires rest == FoundBlocks(v, ino)(Quot(Wrap(x), v.blockSize)).value[Rem(Wrap(x), v.blockSize)..]
    ensures Holds(Bytes(v, ino), x, rest)
  {
    var m: nat :| Fills4G(m, v.blockSize);
    WrappedRest(FoundBlocks(v, ino), v.blockSize, m, x, rest);
  }

  /** A 32-bit position lies before the double-indirect range when blocks are so long that its end wraps. */
  lemma BlockOfPosition(n: nat, q: nat, r: nat, pos: u32, count: nat)
    requires n > 0 && pos == q * n + r && pos < count * n
    ensures q < count && (n < 0x4_0000 || q < 12 + n / 4)
  {
    if q >= count { SmallerRows(count, q, n); }
    if n >= 0x4_0000 && q >= 0x4000 {
      SmallerRows(0x4000, q, n);
    }
  }

  lemma SmallerRows(a: nat, b: nat, n: nat)
    requires a <= b
    ensures a * n <= b * n
  {
    assert b * n == a * n + (b - a) * n;
  }

  lemma FoundBytesAreLeafBytes(v: Volume, ino: Inode, pos: u32, count: nat)
    requires Usable(v) && |ino.blocks| == 15 && count <= |Leaves(v, ino)| && pos < count * v.blockSize
    ensures Sized(LeafBlocks(v, ino), v.blockSize)
    ensures ByteOf(FoundBlocks(v, ino), v.blockSize, pos) == ByteOf(LeafBlocks(v, ino), v.blockSize, pos)
  {
    var q := Quot(pos, v.blockSize);
    QuotRem(pos, v.blockSize);
    BlockOfPosition(v.blockSize, q, Rem(pos, v.blockSize), pos, count);
    FoundAreLeaves(v, ino, q);
  }

  /**
   The whole read: for a file within its block tree whose blocks can be read, and a range
   whose end does not wrap, exactly the slice of the flat file, clipped to the file size.
   */
  lemma ReadIsSlice(v: Volume, ino: Inode, offset: u32, size: u32, count: nat, data: seq<u8>, n: nat)
    requires Usable(v) && |ino.blocks| == 15
    requires count <= |Leaves(v, ino)| && Readable(LeafBlocks(v, ino), count) && ino.size <= count * v.blockSize
    requires offset < ino.size && offset + size < 0x1_0000_0000
    requires Delivered(Bytes(v, ino), offset, Wanted(offset, size, ino.size), data, n)
    ensures var file := Content(LeafBlocks(v, ino), count);
            |file| == count * v.blockSize
            && n == Min(size, ino.size - offset) && data[..n] == file[offset..Min(offset + size, ino.size)]
  {
    WantedClipsIff(offset, size, ino.size);
    ReadBytesAreLeafBytes(v, ino, offset, Wanted(offset, size, ino.size), count);
    DeliveredIsSlice(LeafBlocks(v, ino), v.blockSize, count, Bytes(v, ino), offset, Wanted(offset, size, ino.size),
                     data, n);
  }

  /** The bytes of an unwrapped range are those of the leaves. */
  lemma ReadBytesAreLeafBytes(v: Volume, ino: Inode, offset: u32, wanted: nat, count: nat)
    requires Usable(v) && |ino.blocks| == 15 && count <= |Leaves(v, ino)|
    requires offset < 0x1_0000_0000 && offset + wanted <= 0x1_0000_0000
    requires offset < count * v.blockSize && offset + wanted <= count * v.blockSize
    ensures Sized(LeafBlocks(v, ino), v.blockSize)
    ensures forall pos :: offset <= pos < offset + wanted
                          ==> Bytes(v, ino)(pos) == ByteOf(LeafBlocks(v, ino), v.blockSize, pos)
  {
    BelowWrap(FoundBlocks(v, ino), v.blockSize, offset + wanted);
    FoundBytesAreLeafBytes(v, ino, offset, count);
    forall pos | offset <= pos < offset + wanted
      ensures Bytes(v, ino)(pos) == ByteOf(LeafBlocks(v, ino), v.blockSize, pos)
    {
      FoundBytesAreLeafBytes(v, ino, pos, count);
    }
  }
}
