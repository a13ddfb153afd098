/**
 An ext2 volume as it is written: integers low byte first, the inode record with its fields in
 order, inode tables, block tables and directory records on the sectors of a disk. The reader
 of kernal/fs/ext2.c gives back what stands there.
 */
module Ext2Image {
  import opened Words
  import opened Disk
  import opened DiskImage
  import opened Ext2
  import opened Ext2Dir

  // ----------------------------------------------------------------------------- blocks

  /** Block nr holds data; it lies below 4 GB. */
  ghost predicate BlockHolds(v: Volume, nr: nat, data: seq<u8>) {
    |data| == v.blockSize && nr * v.blockSize + v.blockSize <= 0x1_0000_0000
    && Stored(v.disk, nr * (v.blockSize / 512), data)
  }

  lemma BlockIsRead(v: Volume, nr: u32, data: seq<u8>)
    requires Usable(v) && BlockHolds(v, nr, data)
    ensures BlockAt(v, nr) == Some(data)
  {
    BlockAddressExactIff(v, nr);
    StoredIsRead(v.disk, Lba(v, nr), data, v.blockSize / 512);
  }

  /** Consecutive blocks from nr on hold data. */
  ghost predicate BlocksHold(v: Volume, nr: nat, data: seq<u8>, count: nat) {
    |data| == count * v.blockSize && forall j :: 0 <= j < count ==> PartHeld(v, nr, data, j)
  }

  ghost predicate PartHeld(v: Volume, nr: nat, data: seq<u8>, j: nat) {
    (j + 1) * v.blockSize <= |data| && j * v.blockSize <= (j + 1) * v.blockSize
    && BlockHolds(v, nr + j, data[j * v.blockSize..(j + 1) * v.blockSize])
  }

  // -------------------------------------------------------------------------- inode records

  datatype Record = Record(
    mode: u16, uid: u16, size: u32, atime: u32, ctime: u32, mtime: u32, dtime: u32, gid: u16, links: u16,
    sectors: u32, flags: u32, osd1: u32, block: seq<u32>, generation: u32, fileAcl: u32, dirAcl: u32, faddr: u32,
    osd2: seq<u8>)

  predicate IsRecord(r: Record) {
    |r.block| == 15 && |r.osd2| == 12
  }

  /** struct ext2_inode_t, field after field. */
  function RecordBytes(r: Record): (b: seq<u8>)
    requires IsRecord(r)
    ensures |b| == 128
  {
    Bytes16(r.mode) + Bytes16(r.uid) + Bytes32(r.size) + BytesOf([r.atime, r.ctime, r.mtime, r.dtime])
    + Bytes16(r.gid) + Bytes16(r.links) + BytesOf([r.sectors, r.flags, r.osd1]) + BytesOf(r.block)
    + BytesOf([r.generation, r.fileAcl, r.dirAcl, r.faddr]) + r.osd2
  }

  lemma RecordFields(r: Record)
    requires IsRecord(r)
    ensures var b := RecordBytes(r);
            b[..2] == Bytes16(r.mode) && b[4..8] == Bytes32(r.size) && b[40..100] == BytesOf(r.block)
  {
    var head := Bytes16(r.mode) + Bytes16(r.uid) + Bytes32(r.size);
    var times := BytesOf([r.atime, r.ctime, r.mtime, r.dtime]) + Bytes16(r.gid) + Bytes16(r.links)
                 + BytesOf([r.sectors, r.flags, r.osd1]);
    var tail := BytesOf([r.generation, r.fileAcl, r.dirAcl, r.faddr]) + r.osd2;
    assert RecordBytes(r) == head + times + BytesOf(r.block) + tail;
    assert |head| == 8 && |times| == 32;
  }

  lemma RecordParts(b: seq<u8>, at: nat, r: Record)
    requires IsRecord(r) && at + 128 <= |b| && b[at..at + 128] == RecordBytes(r)
    ensures b[at..at + 2] == Bytes16(r.mode) && b[at + 4..at + 8] == Bytes32(r.size)
    ensures b[at + 40..at + 100] == BytesOf(r.block)
  {
    var c := RecordBytes(r);
    RecordFields(r);
    Sub(b, at, c, 0, 2);
    Sub(b, at, c, 4, 8);
    Sub(b, at, c, 40, 100);
  }

  /** The reader finds mode, size and block numbers in a written record. */
  lemma RecordIsParsed(b: seq<u8>, at: nat, r: Record)
    requires IsRecord(r) && at + 128 <= |b| && b[at..at + 128] == RecordBytes(r)
    ensures ParseInode(b, at) == Inode(r.mode, r.size, r.block)
  {
    RecordParts(b, at, r);
    assert b[at..at + 2][0] == b[at] && b[at..at + 2][1] == b[at + 1];
    Read32(b, at + 4, r.size);
    BlocksAreParsed(b, at, r.block);
  }

  lemma BlocksAreParsed(b: seq<u8>, at: nat, block: seq<u32>)
    requires |block| == 15 && at + 128 <= |b| && b[at + 40..at + 100] == BytesOf(block)
    ensures ParseInode(b, at).blocks == block
  {
    forall k | 0 <= k < 15
      ensures Le32(b, at + 40 + 4 * k) == block[k]
    {
      ReadWords(b, at + 40, block, k);
    }
  }

  /**
   Inode ino of a volume: with ino - 1 == g * inodesPerGroup + index, record number index of
   the table of group g, one record every inodeSize bytes. The table takes count blocks.
   */
  ghost predicate InodeWritten(v: Volume, ino: u32, g: nat, index: nat, table: seq<u8>, count: nat, r: Record) {
    IsRecord(r) && ino - 1 == g * v.inodesPerGroup + index && index < v.inodesPerGroup && g < |v.inodeTables|
    && BlocksHold(v, v.inodeTables[g], table, count) && RecordAt(table, index * v.inodeSize, v.inodeSize, r)
  }

  ghost predicate RecordAt(table: seq<u8>, at: int, size: nat, r: Record)
    requires IsRecord(r)
  {
    0 <= at && at + 128 <= at + size <= |table| && table[at..at + 128] == RecordBytes(r)
  }

  lemma GroupAndIndex(v: Volume, ino: u32, g: nat, index: nat)
    requires ino > 0 && ino - 1 == g * v.inodesPerGroup + index && index < v.inodesPerGroup
    ensures GroupOf(v, ino) == g && IndexOf(v, ino) == index
  {
    OneWay(v.inodesPerGroup, GroupOf(v, ino), IndexOf(v, ino), g, index);
  }

  /** Block j of a table, as the reader gets it. */
  lemma PartIsRead(v: Volume, nr: u32, table: seq<u8>, count: nat, j: nat)
    requires Usable(v) && BlocksHold(v, nr, table, count) && j < count
    ensures nr + j < 0x1_0000_0000 && 0 <= j * v.blockSize && j * v.blockSize + v.blockSize <= |table|
    ensures BlockAt(v, nr + j) == Some(table[j * v.blockSize..j * v.blockSize + v.blockSize])
  {
    assert PartHeld(v, nr, table, j);
    var base := RowStart(j, v.blockSize);
    BlockBelow4G(nr + j, v.blockSize);
    BlockIsRead(v, nr + j, table[base..base + v.blockSize]);
  }

  lemma RowStart(j: nat, n: nat) returns (base: nat)
    ensures base == j * n && (j + 1) * n == base + n
  {
    base := j * n;
  }

  lemma BlockBelow4G(nr: nat, n: nat)
    requires n > 0 && nr * n + n <= 0x1_0000_0000
    ensures nr < 0x1_0000_0000
  {
    if nr >= 0x1_0000_0000 { SmallerRows(0x1_0000_0000, nr, n); }
  }

  /** A record of the table that lies in block j, behind off bytes of it. */
  lemma RecordIsRead(v: Volume, nr: u32, table: seq<u8>, count: nat, j: nat, off: nat, at: nat, r: Record)
    requires Usable(v) && BlocksHold(v, nr, table, count) && j < count && IsRecord(r)
    requires at == j * v.blockSize + off && RecordAt(table, at, v.inodeSize, r) && off + v.inodeSize <= v.blockSize
    ensures nr + j < 0x1_0000_0000 && BlockAt(v, nr + j).Some?
    ensures ParseInode(BlockAt(v, nr + j).value, off) == Inode(r.mode, r.size, r.block)
  {
    PartIsRead(v, nr, table, count, j);
    var base, n := j * v.blockSize, v.blockSize;
    SliceOfSlice(table, base, base + n, off, off + 128);
    RecordIsParsed(table[base..base + n], off, r);
  }

  /** Where records fill blocks evenly the reader finds what was written, field by field. */
  lemma InodeReadsBack(v: Volume, ino: u32, g: nat, index: nat, table: seq<u8>, count: nat, r: Record)
    requires Usable(v) && v.blockSize % v.inodeSize == 0 && ino > 0 && InodeWritten(v, ino, g, index, table, count, r)
    ensures InodeAt(v, ino) == Some(Inode(r.mode, r.size, r.block))
  {
    GroupAndIndex(v, ino, g, index);
    var j, off := SlotIsFlat(v, index, count, |table|);
    RecordIsRead(v, v.inodeTables[g], table, count, j, off, index * v.inodeSize, r);
    SlotIsParsed(v, ino, g, j, off);
  }

  lemma SlotIsFlat(v: Volume, index: nat, count: nat, length: nat) returns (j: nat, off: nat)
    requires 128 <= v.inodeSize <= v.blockSize && v.blockSize % v.inodeSize == 0
    requires length == count * v.blockSize && index * v.inodeSize + v.inodeSize <= length
    ensures InodeSlot(v, index) == (j, off) && index * v.inodeSize == j * v.blockSize + off
    ensures off + v.inodeSize <= v.blockSize && j < count
  {
    InodesAreContiguous(v, index);
    SlotInside(v, index);
    j, off := InodeSlot(v, index).0, InodeSlot(v, index).1;
    BlockWithin(j, off + v.inodeSize, v.blockSize, count);
  }

  lemma SlotIsParsed(v: Volume, ino: u32, g: nat, j: nat, off: nat)
    requires Usable(v) && ino > 0 && GroupOf(v, ino) == g < |v.inodeTables|
    requires InodeSlot(v, IndexOf(v, ino)) == (j, off) && v.inodeTables[g] + j < 0x1_0000_0000
    requires BlockAt(v, v.inodeTables[g] + j).Some?
    ensures off + 128 <= v.blockSize
    ensures InodeAt(v, ino) == Some(ParseInode(BlockAt(v, v.inodeTables[g] + j).value, off))
  {
    LocationIs(v, ino, v.inodeTables[g], j, off);
  }

  lemma LocationIs(v: Volume, ino: u32, table: u32, j: nat, off: nat)
    requires Usable(v) && ino > 0 && GroupOf(v, ino) < |v.inodeTables| && v.inodeTables[GroupOf(v, ino)] == table
    requires InodeSlot(v, IndexOf(v, ino)) == (j, off) && table + j < 0x1_0000_0000
    ensures InodeLocation(v, ino) == Some((table + j, off)) && off + 128 <= v.blockSize
  {
    assert InodeLocation(v, ino).Some?;
  }

  lemma BlockWithin(j: nat, part: nat, n: nat, count: nat)
    requires 0 < part <= n && j * n + part <= count * n
    ensures j < count
  {
    if j >= count { SmallerRows(count, j, n); }
  }

  // -------------------------------------------------------------------------- block trees

  /**
   The block numbers nrs of a file, in order, as its inode lists them: twelve in the inode,
   then those in the table that entry 12 names, then those in the tables that the table named
   by entry 13 names.
   */
  ghost predicate TreeWritten(v: Volume, block: seq<u32>, nrs: seq<u32>, single: seq<u32>, first: seq<u32>,
                              second: seq<seq<u32>>) {
    var p := v.blockSize / 4;
    |block| == 15
    && (|nrs| > 12 ==> |single| == p && BlockHolds(v, block[12], BytesOf(single)))
    && (|nrs| > 12 + p ==> |first| == p && BlockHolds(v, block[13], BytesOf(first)))
    && |second| <= p && (second != [] ==> |nrs| > 12 + p)
    && (forall i :: 0 <= i < |second| ==> TableWritten(v, first, second, i))
    && nrs <= block[..12] + single + Flatten(second)
  }

  ghost predicate TableWritten(v: Volume, first: seq<u32>, second: seq<seq<u32>>, i: nat)
    requires i < |second|
  {
    i < |first| && |second[i]| == v.blockSize / 4 && BlockHolds(v, first[i], BytesOf(second[i]))
  }

  /** Entry i of a table that stands in block nr. */
  lemma EntryIsRead(v: Volume, nr: u32, t: seq<u32>, i: nat)
    requires Usable(v) && |t| == PerBlock(v) && i < |t| && BlockHolds(v, nr, BytesOf(t))
    ensures Entry(v, Some(nr), i) == Some(t[i])
  {
    BlockIsRead(v, nr, BytesOf(t));
    TableFits(BytesOf(t), v.blockSize);
    assert BytesOf(t)[0..0 + 4 * |t|] == BytesOf(t);
    ReadWords(BytesOf(t), 0, t, i);
  }

  /** Entry r of table q of the second level. */
  lemma SecondAt(v: Volume, ino: Inode, first: seq<u32>, second: seq<seq<u32>>, q: nat, r: nat)
    requires Usable(v) && |ino.blocks| == 15 && |first| == PerBlock(v) && BlockHolds(v, ino.blocks[13], BytesOf(first))
    requires q < |second| && q < PerBlock(v) && r < PerBlock(v) && TableWritten(v, first, second, q)
    ensures SecondLevel(v, ino.blocks[13])[q][r] == Some(second[q][r])
  {
    EntryIsRead(v, ino.blocks[13], first, q);
    EntryIsRead(v, first[q], second[q], r);
  }

  lemma RowAndColumn(pos: nat, n: nat) returns (q: nat, r: nat)
    requires n > 0
    ensures pos == q * n + r && r < n
  {
    BlockOf(pos, n);
    q, r := pos / n, pos % n;
  }

  lemma SecondIsWritten(v: Volume, ino: Inode, first: seq<u32>, second: seq<seq<u32>>, rel: nat)
    requires Usable(v) && |ino.blocks| == 15 && |first| == PerBlock(v) && BlockHolds(v, ino.blocks[13], BytesOf(first))
    requires |second| <= PerBlock(v) && forall k :: 0 <= k < |second| ==> TableWritten(v, first, second, k)
    requires rel < |Flatten(second)|
    ensures rel < |Flatten(SecondLevel(v, ino.blocks[13]))|
    ensures Flatten(SecondLevel(v, ino.blocks[13]))[rel] == Some(Flatten(second)[rel])
  {
    var p := PerBlock(v);
    TablesUniform(v, first, second);
    FlattenLength(second, p);
    var q, r := RowAndColumn(rel, p);
    BlockWithin(q, r + 1, p, |second|);
    SecondAt(v, ino, first, second, q, r);
    FlattenAt(second, p, q, r);
    FlattenAt(SecondLevel(v, ino.blocks[13]), p, q, r);
  }

  lemma TablesUniform(v: Volume, first: seq<u32>, second: seq<seq<u32>>)
    requires forall k :: 0 <= k < |second| ==> TableWritten(v, first, second, k)
    ensures Uniform(second, PerBlock(v))
  {
    forall k | 0 <= k < |second|
      ensures |second[k]| == PerBlock(v)
    {
      assert TableWritten(v, first, second, k);
    }
  }

  /** The leaves of the tree are the block numbers, in order. */
  lemma LeafIsWritten(v: Volume, ino: Inode, nrs: seq<u32>, single: seq<u32>, first: seq<u32>, second: seq<seq<u32>>,
                      i: nat)
    requires Usable(v) && |ino.blocks| == 15 && TreeWritten(v, ino.blocks, nrs, single, first, second) && i < |nrs|
    ensures i < |Leaves(v, ino)| && Leaves(v, ino)[i] == Some(nrs[i])
  {
    var p := PerBlock(v);
    assert nrs[i] == (ino.blocks[..12] + single + Flatten(second))[i];
    if i < 12 {
      LeafAt(v, ino, i);
    } else if i < 12 + p {
      LeafAt(v, ino, i);
      EntryIsRead(v, ino.blocks[12], single, i - 12);
    } else {
      SecondIsWritten(v, ino, first, second, i - 12 - p);
      LeafAt(v, ino, i);
    }
  }

  lemma LeafAt(v: Volume, ino: Inode, i: nat)
    requires Usable(v) && |ino.blocks| == 15
    requires i < 12 + PerBlock(v) + |Flatten(SecondLevel(v, ino.blocks[13]))|
    ensures i < |Leaves(v, ino)|
    ensures var p := PerBlock(v);
            Leaves(v, ino)[i] == if i < 12 then Some(ino.blocks[i])
                                 else if i < 12 + p then Entry(v, Some(ino.blocks[12]), i - 12)
                                 else Flatten(SecondLevel(v, ino.blocks[13]))[i - 12 - p]
  {
  }

  // ------------------------------------------------------------------------------- files

  /** The blocks nrs hold the bytes of the file, in order. */
  ghost predicate DataWritten(v: Volume, nrs: seq<u32>, file: seq<u8>) {
    |file| == |nrs| * v.blockSize && forall i :: 0 <= i < |nrs| ==> DataAt(v, nrs, file, i)
  }

  ghost predicate DataAt(v: Volume, nrs: seq<u32>, file: seq<u8>, i: nat)
    requires i < |nrs|
  {
    0 <= i * v.blockSize && i * v.blockSize + v.blockSize <= |file|
    && BlockHolds(v, nrs[i], file[i * v.blockSize..i * v.blockSize + v.blockSize])
  }

  /** The file that ReadIsSlice speaks of is the one that was written. */
  lemma ContentIsWritten(v: Volume, ino: Inode, nrs: seq<u32>, single: seq<u32>, first: seq<u32>,
                         second: seq<seq<u32>>, file: seq<u8>)
    requires Usable(v) && |ino.blocks| == 15 && TreeWritten(v, ino.blocks, nrs, single, first, second)
    requires DataWritten(v, nrs, file)
    ensures |nrs| <= |Leaves(v, ino)| && Readable(LeafBlocks(v, ino), |nrs|)
    ensures Content(LeafBlocks(v, ino), |nrs|) == file
  {
    LeavesLength(v, ino);
    var b, n := LeafBlocks(v, ino), v.blockSize;
    if nrs != [] { LeafIsWritten(v, ino, nrs, single, first, second, |nrs| - 1); }
    forall i | 0 <= i < |nrs|
      ensures b(i).Some? && DataAt(v, nrs, file, i) && b(i).value == file[i * n..i * n + n]
    {
      LeafIsWritten(v, ino, nrs, single, first, second, i);
      assert DataAt(v, nrs, file, i);
      BlockIsRead(v, nrs[i], file[i * n..i * n + n]);
    }
    var pieces := seq(|nrs|, i requires 0 <= i < |nrs| => b(i).value);
    forall i | 0 <= i < |pieces|
      ensures PieceOf(pieces, n, file, i)
    {
      assert DataAt(v, nrs, file, i);
    }
    FlattenPieces(pieces, n, file);
  }

  /** What is delivered of such a file. */
  lemma SliceIsWritten(v: Volume, ino: Inode, nrs: seq<u32>, single: seq<u32>, first: seq<u32>, second: seq<seq<u32>>,
                       file: seq<u8>, offset: u32, size: u32, data: seq<u8>, n: nat)
    requires Usable(v) && |ino.blocks| == 15 && TreeWritten(v, ino.blocks, nrs, single, first, second)
    requires DataWritten(v, nrs, file) && offset < ino.size <= |file| && offset + size < 0x1_0000_0000
    requires Delivered(Bytes(v, ino), offset, Wanted(offset, size, ino.size), data, n)
    ensures n == Min(size, ino.size - offset) && offset + n <= |file| && data[..n] == file[offset..offset + n]
  {
    ContentIsWritten(v, ino, nrs, single, first, second, file);
    ReadIsSlice(v, ino, offset, size, |nrs|, data, n);
  }

  /**
   A file on the disk, its record, block tree and data written as above, is read back:
   ext2_vfs_read gives exactly the wanted slice of it, clipped to its size.
   */
  method FileReadsBack(v: Volume, inum: u32, offset: u32, size: u32, buf: array<u8>, ghost g: nat, ghost index: nat,
                       ghost table: seq<u8>, ghost count: nat, ghost r: Record, ghost nrs: seq<u32>,
                       ghost single: seq<u32>, ghost first: seq<u32>, ghost second: seq<seq<u32>>, ghost file: seq<u8>)
      returns (got: int)
    requires Usable(v) && v.blockSize % v.inodeSize == 0 && size <= buf.Length && inum > 0
    requires InodeWritten(v, inum, g, index, table, count, r)
    requires TreeWritten(v, r.block, nrs, single, first, second) && DataWritten(v, nrs, file) && r.size <= |file|
    requires offset + size < 0x1_0000_0000
    modifies buf
    ensures var n := if offset < r.size then Min(size, r.size - offset) else 0;
            got == Signed(n) && Outside(buf, 0, n)
            && (offset < r.size ==> buf[..n] == file[offset..offset + n])
  {
    InodeReadsBack(v, inum, g, index, table, count, r);
    got := VfsRead(v, inum, offset, size, buf, true);
    if offset < r.size {
      ghost var ino := Inode(r.mode, r.size, r.block);
      ghost var n: u32 :| got == Signed(n) && Outside(buf, 0, n)
                          && Delivered(Bytes(v, ino), offset, Wanted(offset, size, ino.size), buf[..], n);
      SliceIsWritten(v, ino, nrs, single, first, second, file, offset, size, buf[..], n);
    }
  }

  // --------------------------------------------------------------------------- directories

  /** A directory record as it is written: unused ones have inode 0; pad fills it up to its length. */
  datatype Slot = Slot(inode: u32, kind: u8, name: seq<u8>, pad: seq<u8>)

  predicate IsSlot(s: Slot) {
    |s.name| < 0x100 && 8 + |s.name| + |s.pad| < 0x1_0000 && 0 !in s.name
  }

  /** struct ext2_dirent_t: inode, record length, name length, kind, name. */
  function SlotBytes(s: Slot): (b: seq<u8>)
    requires IsSlot(s)
    ensures |b| == 8 + |s.name| + |s.pad|
  {
    Bytes32(s.inode) + Bytes16(8 + |s.name| + |s.pad|) + [|s.name|] + [s.kind] + s.name + s.pad
  }

  function DirBytes(ss: seq<Slot>): seq<u8>
    requires forall s :: s in ss ==> IsSlot(s)
  {
    if ss == [] then [] else SlotBytes(ss[0]) + DirBytes(ss[1..])
  }

  /** The records in use. */
  function InUse(ss: seq<Slot>): seq<Dirent> {
    if ss == [] then []
    else (if ss[0].inode != 0 then [Dirent(ss[0].inode, ss[0].kind, ss[0].name)] else []) + InUse(ss[1..])
  }

  /** The fields of a written record, where the reader looks for them. */
  lemma SlotIsRead(b: seq<u8>, pos: nat, s: Slot)
    requires SlotAt(b, pos, s)
    ensures RecLen(b, pos) == SlotLength(s) && NameLen(b, pos) == |s.name|
    ensures Ext2Dir.Record(b, pos) == Dirent(s.inode, s.kind, s.name)
  {
    var c, len := SlotBytes(s), 8 + |s.name| + |s.pad|;
    assert c[0..4] == Bytes32(s.inode) && c[4..6] == Bytes16(len) && c[6] == |s.name| && c[7] == s.kind;
    assert c[8..8 + |s.name|] == s.name;
    Sub(b, pos, c, 0, 4);
    Sub(b, pos, c, 4, 8);
    Sub(b, pos, c, 8, 8 + |s.name|);
    Read32(b, pos, s.inode);
    assert b[pos + 4] == b[pos + 4..pos + 8][0] == c[4..8][0] == c[4..6][0];
    assert b[pos + 5] == b[pos + 4..pos + 8][1] == c[4..8][1] == c[4..6][1];
    assert b[pos + 6] == b[pos + 4..pos + 8][2] == c[6] && b[pos + 7] == b[pos + 4..pos + 8][3] == c[7];
  }

  /** From pos on the records ss, up to the end. */
  ghost predicate SlotsAt(b: seq<u8>, pos: nat, ss: seq<Slot>)
    decreases |ss|
  {
    if ss == [] then pos == |b| else SlotAt(b, pos, ss[0]) && SlotsAt(b, pos + SlotLength(ss[0]), ss[1..])
  }

  function SlotLength(s: Slot): nat { 8 + |s.name| + |s.pad| }

  ghost predicate SlotAt(b: seq<u8>, pos: nat, s: Slot) {
    IsSlot(s) && pos + SlotLength(s) <= |b| && b[pos..pos + SlotLength(s)] == SlotBytes(s)
  }

  lemma {:induction false} DirIsThere(pre: seq<u8>, ss: seq<Slot>)
    requires forall s :: s in ss ==> IsSlot(s)
    ensures SlotsAt(pre + DirBytes(ss), |pre|, ss)
    decreases |ss|
  {
    if ss != [] {
      DirIsThere(pre + SlotBytes(ss[0]), ss[1..]);
      Joined(pre, SlotBytes(ss[0]), DirBytes(ss[1..]));
    }
  }

  lemma Joined(pre: seq<u8>, first: seq<u8>, rest: seq<u8>)
    ensures pre + (first + rest) == pre + first + rest
    ensures (pre + first + rest)[|pre|..|pre| + |first|] == first
  {
  }

  /** Written records are well formed, and their scan gives those in use. */
  lemma {:induction false} DirIsScanned(b: seq<u8>, pos: nat, ss: seq<Slot>)
    requires pos <= |b| && SlotsAt(b, pos, ss)
    ensures Scanned(b, pos, InUse(ss))
    decreases |ss|
  {
    if ss == [] {
      EndIsScanned(b);
    } else {
      DirIsScanned(b, pos + SlotLength(ss[0]), ss[1..]);
      OneIsScanned(b, pos, ss[0], InUse(ss[1..]));
    }
  }

  lemma EndIsScanned(b: seq<u8>)
    ensures Scanned(b, |b|, [])
  {
  }

  ghost predicate Scanned(b: seq<u8>, pos: nat, es: seq<Dirent>) {
    WellFormed(b, pos) && Scan(b, pos) == es
  }

  /** One written record in front of a part that is scanned already. */
  lemma OneIsScanned(b: seq<u8>, pos: nat, s: Slot, rest: seq<Dirent>)
    requires SlotAt(b, pos, s) && Scanned(b, pos + SlotLength(s), rest)
    ensures Scanned(b, pos, (if s.inode != 0 then [Dirent(s.inode, s.kind, s.name)] else []) + rest)
  {
    SlotIsRead(b, pos, s);
  }

  /** The direct blocks of a directory hold the records of dirs, and the rest of them is not in use. */
  ghost predicate DirWritten(v: Volume, block: seq<u32>, dirs: seq<seq<Slot>>) {
    |block| == 15 && |dirs| <= 12
    && (forall i :: |dirs| <= i < 12 ==> block[i] == 0)
    && forall i :: 0 <= i < |dirs| ==> DirBlockAt(v, block, dirs, i)
  }

  ghost predicate DirBlockAt(v: Volume, block: seq<u32>, dirs: seq<seq<Slot>>, i: nat)
    requires i < |dirs| && i < |block|
  {
    block[i] != 0 && (forall s :: s in dirs[i] ==> IsSlot(s)) && BlockHolds(v, block[i], DirBytes(dirs[i]))
  }

  lemma DirBlockIsRead(v: Volume, ino: Inode, dirs: seq<seq<Slot>>, bi: nat)
    requires Usable(v) && |ino.blocks| == 15 && DirWritten(v, ino.blocks, dirs)
    ensures HasBlock(v, ino, bi) <==> bi < |dirs|
    ensures bi < |dirs| ==> WellFormed(FileBlock(v, ino, bi).value, 0)
                            && Scan(FileBlock(v, ino, bi).value, 0) == InUse(dirs[bi])
  {
    if bi < |dirs| {
      assert DirBlockAt(v, ino.blocks, dirs, bi);
      var b := DirBytes(dirs[bi]);
      BlockIsRead(v, ino.blocks[bi], b);
      DirIsThere([], dirs[bi]);
      assert [] + b == b;
      DirIsScanned(b, 0, dirs[bi]);
    }
  }

  /** All records in use, block after block. */
  function AllInUse(dirs: seq<seq<Slot>>, i: nat): seq<Dirent>
    decreases |dirs| - i
  {
    if i >= |dirs| then [] else InUse(dirs[i]) + AllInUse(dirs, i + 1)
  }

  lemma {:induction false} ListingFrom(v: Volume, ino: Inode, dirs: seq<seq<Slot>>, bi: nat)
    requires Usable(v) && |ino.blocks| == 15 && DirWritten(v, ino.blocks, dirs) && Sane(v, ino)
    ensures Listing(v, ino, bi) == AllInUse(dirs, bi)
    decreases |dirs| - bi
  {
    DirBlockIsRead(v, ino, dirs, bi);
    if bi < |dirs| { ListingFrom(v, ino, dirs, bi + 1); }
  }

  /** A directory that was written is well formed, and its listing is exactly what was written and is in use. */
  lemma DirectoryReadsBack(v: Volume, ino: Inode, dirs: seq<seq<Slot>>)
    requires Usable(v) && |ino.blocks| == 15 && DirWritten(v, ino.blocks, dirs)
    ensures Sane(v, ino) && Listing(v, ino, 0) == AllInUse(dirs, 0)
  {
    forall bi: nat | HasBlock(v, ino, bi)
      ensures WellFormed(FileBlock(v, ino, bi).value, 0)
    {
      DirBlockIsRead(v, ino, dirs, bi);
    }
    ListingFrom(v, ino, dirs, 0);
  }
}
