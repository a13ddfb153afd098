/**
 A FAT32 volume as it is written: the allocation table on the sectors from fatStart on, and
 the clusters of a file behind dataStart. The reader of kernal/fs/fat32.c gives the file back.
 */
module Fat32Image {
  import opened Words
  import opened Disk
  import opened DiskImage
  import opened Fat32

  /** The allocation table stands on the disk, four bytes an entry. */
  ghost predicate FatWritten(v: Volume, fat: seq<u32>) {
    |fat| <= 0x4000_0000 && Stored(v.disk, v.fatStart, BytesOf(fat))
  }

  lemma InSector(b: seq<u8>, i: nat, off: nat)
    requires 512 * i + 512 <= |b| && off + 4 <= 512
    ensures Le32(b[512 * i..512 * i + 512], off) == Le32(b, 512 * i + off)
  {
  }

  /** The next cluster is the table entry, without its upper four bits. */
  lemma EntryReadsBack(v: Volume, fat: seq<u32>, c: u32)
    requires FatWritten(v, fat) && c < |fat|
    ensures Next(v, c) == fat[c] % 0x1000_0000
  {
    Aligned(c);
    Offset(c);
    EntryAt(v, fat, c, (4 * c) / 512, (4 * c) % 512);
  }

  lemma Offset(c: nat)
    requires c < 0x4000_0000
    ensures Wrap(c * 4) == 4 * c == 512 * ((4 * c) / 512) + (4 * c) % 512
  {
  }

  lemma EntryAt(v: Volume, fat: seq<u32>, c: nat, i: nat, off: nat)
    requires FatWritten(v, fat) && c < |fat| && 4 * c == 512 * i + off && off + 4 <= 512
    ensures var s := v.disk(Wrap(v.fatStart + i)); s.Some? && Le32(s.value, off) == fat[c]
  {
    var b := BytesOf(fat);
    assert SectorHolds(v.disk, v.fatStart, b, i);
    assert Wrap(v.fatStart + i) == v.fatStart + i;
    InSector(b, i, off);
    assert b[0..0 + 4 * |fat|] == b;
    ReadWords(b, 0, fat, c);
  }

  /** The clusters of a file, linked through the table; the last entry is an end mark. */
  ghost predicate ChainWritten(fat: seq<u32>, chain: seq<u32>) {
    chain != [] && forall i :: 0 <= i < |chain| ==> LinkWritten(fat, chain, i)
  }

  ghost predicate LinkWritten(fat: seq<u32>, chain: seq<u32>, i: nat)
    requires i < |chain|
  {
    2 <= chain[i] < |fat| && chain[i] < EOC
    && if i + 1 < |chain| then fat[chain[i]] % 0x1000_0000 == chain[i + 1] else fat[chain[i]] % 0x1000_0000 >= EOC
  }

  lemma ChainReadsBack(v: Volume, fat: seq<u32>, chain: seq<u32>)
    requires FatWritten(v, fat) && ChainWritten(fat, chain)
    ensures IsChain(LinksOf(v), chain[0], chain)
  {
    forall i | 0 <= i < |chain|
      ensures LinkWritten(fat, chain, i) && LinksOf(v)(chain[i]) == fat[chain[i]] % 0x1000_0000
    {
      assert LinkWritten(fat, chain, i);
      EntryReadsBack(v, fat, chain[i]);
    }
  }

  /** The clusters hold the bytes of the file, in order. */
  ghost predicate DataWritten(v: Volume, chain: seq<u32>, file: seq<u8>) {
    |file| == |chain| * ClusterSize(v) && forall i :: 0 <= i < |chain| ==> ClusterWritten(v, chain, file, i)
  }

  ghost predicate ClusterWritten(v: Volume, chain: seq<u32>, file: seq<u8>, i: nat)
    requires i < |chain|
  {
    var n, lba := ClusterSize(v), v.dataStart + (chain[i] - 2) * v.sectorsPerCluster;
    0 <= i * n && i * n + n <= |file| && 0 <= lba && lba + v.sectorsPerCluster <= 0x1_0000_0000
    && Stored(v.disk, lba, file[i * n..i * n + n])
  }

  lemma ClusterIsRead(v: Volume, chain: seq<u32>, file: seq<u8>, i: nat)
    requires Usable(v) && i < |chain| && ClusterWritten(v, chain, file, i)
    ensures var n := ClusterSize(v);
            0 <= i * n && i * n + n <= |file| && ClusterData(v, chain[i]) == Some(file[i * n..i * n + n])
  {
    var n, lba := ClusterSize(v), v.dataStart + (chain[i] - 2) * v.sectorsPerCluster;
    ClusterLbaExactIff(v, chain[i]);
    StoredIsRead(v.disk, lba, file[i * n..i * n + n], v.sectorsPerCluster);
  }

  lemma ContentIsWritten(v: Volume, chain: seq<u32>, file: seq<u8>)
    requires Usable(v) && DataWritten(v, chain, file)
    ensures Readable(ChainBlocks(v, chain), |chain|) && Content(ChainBlocks(v, chain), |chain|) == file
  {
    var b, n := ChainBlocks(v, chain), ClusterSize(v);
    forall i | 0 <= i < |chain|
      ensures b(i).Some? && 0 <= i * n && i * n + n <= |file| && b(i).value == file[i * n..i * n + n]
    {
      assert ClusterWritten(v, chain, file, i);
      ClusterIsRead(v, chain, file, i);
    }
    var pieces := seq(|chain|, i requires 0 <= i < |chain| => b(i).value);
    forall i | 0 <= i < |pieces|
      ensures PieceOf(pieces, n, file, i)
    {
      assert b(i).Some?;
    }
    FlattenPieces(pieces, n, file);
  }

  /**
   A file whose table entries and clusters are written as above is read back: fat32_read gives
   exactly the wanted slice of its clusters, clipped to the file size and to their end.
   */
  method FileReadsBack(v: Volume, fileSize: u32, offset: u32, size: u32, buf: array<u8>, ghost fat: seq<u32>,
                       chain: seq<u32>, ghost file: seq<u8>)
      returns (got: int)
    requires Usable(v) && size <= buf.Length && FatWritten(v, fat) && ChainWritten(fat, chain)
    requires DataWritten(v, chain, file) && offset + size < 0x1_0000_0000
    modifies buf
    ensures var end := Min(Min(offset + size, fileSize), |file|);
            var n := if offset < end then end - offset else 0;
            n < 0x1_0000_0000 && got == Signed(n) && Outside(buf, 0, n)
            && (offset < end ==> buf[..n] == file[offset..end])
  {
    ChainReadsBack(v, fat, chain);
    ContentIsWritten(v, chain, file);
    got := Read(v, chain[0], fileSize, offset, size, buf, true);
    if offset < fileSize {
      ghost var n: u32 :| got == Signed(n) && Outside(buf, 0, n)
                          && Delivered(Bytes(v, chain[0]), offset, Wanted(offset, size, fileSize), buf[..], n);
      ReadIsSlice(v, chain[0], chain, fileSize, offset, size, buf[..], n);
    }
  }
}
