/**
 Reading files of a FAT32 volume, as kernal/fs/fat32.c does: the clusters of a file are
 linked through the file allocation table.
 */
module Fat32 {
  import opened Words
  import opened Disk

  datatype Volume = Volume(disk: Image, fatStart: u32, dataStart: u32, sectorsPerCluster: u32, bytesPerSector: u32)

  /** FAT32_EOC */
  const EOC: u32 := 0x0FFF_FFF8

  // ------------------------------------------------------------------------------ addresses

  /** A product by repeated addition: proofs that do not care about its value see only the name. */
  ghost function Times(a: int, s: nat): int {
    if s == 0 then 0 else Times(a, s - 1) + a
  }

  lemma {:induction false} TimesIsProduct(a: int, s: nat)
    ensures Times(a, s) == a * s
  {
    if s > 0 {
      TimesIsProduct(a, s - 1);
      assert a * s == a * (s - 1) + a;
    }
  }

  /** The first sector of a cluster, each operation in 32 bits. */
  ghost function ClusterLba(v: Volume, cluster: u32): u32 {
    Wrap(v.dataStart + Wrap(Times(Wrap(cluster - 2), v.sectorsPerCluster)))
  }

  /** cluster_to_lba */
  method ClusterToLba(v: Volume, cluster: u32) returns (lba: u32)
    ensures lba == ClusterLba(v, cluster)
  {
    TimesIsProduct(Wrap(cluster - 2), v.sectorsPerCluster);
    var rel := Wrap(cluster - 2);
    lba := Wrap(v.dataStart + Wrap(rel * v.sectorsPerCluster));
  }

  /** Wrapping at every step is wrapping once. */
  lemma WrapOnce(d: int, a: int, s: nat)
    ensures Wrap(d + Wrap(Wrap(a) * s)) == Wrap(d + a * s)
  {
    var k := (Wrap(a) - a) / 0x1_0000_0000;
    assert Wrap(a) == a + 0x1_0000_0000 * k;
    Distribute(a, 0x1_0000_0000, k, s);
    WrapShift(a * s, k * s);
    WrapInner(d, a * s);
  }

  lemma Distribute(a: int, b: int, k: int, s: int)
    ensures (a + b * k) * s == a * s + b * (k * s)
  {
  }

  lemma WrapShift(x: int, k: int)
    ensures Wrap(x + 0x1_0000_0000 * k) == Wrap(x)
  {
  }

  lemma WrapInner(d: int, x: int)
    ensures Wrap(d + Wrap(x)) == Wrap(d + x)
  {
  }

  lemma Positive(a: int, s: nat)
    requires s > 0
    ensures (a >= 0 ==> a * s >= 0) && (a <= -1 ==> a * s <= 0 - s)
  {
    assert a <= -1 ==> (a + 1) * s <= 0;
  }

  lemma LbaOnce(v: Volume, cluster: u32)
    ensures ClusterLba(v, cluster) == Wrap(v.dataStart + (cluster - 2) * v.sectorsPerCluster)
  {
    TimesIsProduct(Wrap(cluster - 2), v.sectorsPerCluster);
    WrapOnce(v.dataStart, cluster - 2, v.sectorsPerCluster);
  }

  /**
   The address is the intended one exactly if that fits 32 bits, for the reserved numbers 0
   and 1 as well; it lies in the data area exactly for data clusters.
   */
  lemma ClusterLbaExactIff(v: Volume, cluster: u32)
    ensures var lba := v.dataStart + (cluster - 2) * v.sectorsPerCluster;
            (ClusterLba(v, cluster) == lba <==> 0 <= lba < 0x1_0000_0000)
            && (v.sectorsPerCluster > 0 ==> (lba >= v.dataStart <==> cluster >= 2))
  {
    LbaOnce(v, cluster);
    if v.sectorsPerCluster > 0 { Positive(cluster - 2, v.sectorsPerCluster); }
    InRangeIff(v.dataStart + (cluster - 2) * v.sectorsPerCluster);
  }

  lemma InRangeIff(x: int)
    ensures Wrap(x) == x <==> 0 <= x < 0x1_0000_0000
  {
  }

  /** Different clusters have different sectors. */
  lemma ClustersDisjoint(v: Volume, a: u32, b: u32)
    requires 2 <= a < b && v.dataStart + (b - 2) * v.sectorsPerCluster < 0x1_0000_0000
    ensures ClusterLba(v, a) + v.sectorsPerCluster <= ClusterLba(v, b)
  {
    MoreRows(v.sectorsPerCluster, a - 2, b - 2);
    LbaOnce(v, a);
    LbaOnce(v, b);
    InRangeIff(v.dataStart + (a - 2) * v.sectorsPerCluster);
    InRangeIff(v.dataStart + (b - 2) * v.sectorsPerCluster);
  }

  lemma MoreRows(s: nat, a: nat, b: nat)
    requires a < b
    ensures 0 <= a * s && a * s + s <= b * s
  {
    assert b * s == a * s + s + (b - a - 1) * s;
  }

  /** Offset in its sector of a cluster's table entry. */
  function EntryOffset(v: Volume, cluster: u32): u32
    requires v.bytesPerSector > 0
  {
    Wrap(cluster * 4) % v.bytesPerSector
  }

  /** The sizes that fat32_mount accepts. */
  predicate Accepted(v: Volume) {
    v.bytesPerSector == 512 || v.bytesPerSector == 1024 || v.bytesPerSector == 2048 || v.bytesPerSector == 4096
  }

  /**
   The entry is taken from a 512-byte buffer whatever the sector size: of the sizes that
   mounting accepts, only 512 keeps every entry inside it.
   */
  lemma EntryInBufferIff(v: Volume)
    requires Accepted(v)
    ensures (forall c: u32 :: EntryOffset(v, c) + 4 <= 512) <==> v.bytesPerSector == 512
  {
    if v.bytesPerSector == 512 {
      forall c: u32
        ensures EntryOffset(v, c) + 4 <= 512
      {
        Aligned(c);
      }
    } else {
      assert EntryOffset(v, 128) == 512;
    }
  }

  /** What reading relies on: 512-byte sectors, and clusters of at least one. */
  predicate Usable(v: Volume) {
    v.bytesPerSector == 512 && v.sectorsPerCluster > 0
  }

  /** bytes_per_cluster */
  function ClusterSize(v: Volume): nat {
    512 * v.sectorsPerCluster
  }

  // ------------------------------------------------------------------------------ the chain

  /** fat32_next_cluster, for 512-byte sectors; a table sector that cannot be read ends the chain. */
  function Next(v: Volume, cluster: u32): u32 {
    var at := Wrap(cluster * 4);
    var sector := v.disk(Wrap(v.fatStart + at / 512));
    Aligned(cluster);
    if sector.None? then EOC else Le32(sector.value, at % 512) % 0x1000_0000
  }

  lemma Aligned(cluster: u32)
    ensures Wrap(cluster * 4) % 512 + 4 <= 512
  {
    assert Wrap(cluster * 4) % 4 == 0;
  }

  /** The table as a map from each cluster to the next. */
  type Links = u32 -> u32

  ghost function LinksOf(v: Volume): Links {
    (c: u32) => Next(v, c)
  }

  method NextCluster(v: Volume, cluster: u32) returns (next: u32)
    requires v.bytesPerSector == 512
    ensures next == Next(v, cluster) == LinksOf(v)(cluster)
  {
    Aligned(cluster);
    var at := Wrap(cluster * 4);
    var sector := LoadTable(v, Wrap(v.fatStart + at / 512));
    if sector.None? { return EOC; }
    next := Le32(sector.value, at % 512) % 0x1000_0000;
  }

  /** One sector of the table, read into a buffer of its own. */
  method LoadTable(v: Volume, lba: u32) returns (sector: Option<seq<u8>>)
    ensures sector == v.disk(lba)
  {
    var buf := new u8[512];
    var ok := IdeRead(v.disk, lba, 1, buf, 0);
    OneSector(v.disk, lba);
    if !ok { return None; }
    assert buf[..] == buf[0..0 + 512 * 1];
    sector := Some(buf[..]);
  }

  lemma OneSector(d: Image, lba: u32)
    ensures Sectors(d, lba, 1).Some? <==> d(lba).Some?
    ensures d(lba).Some? ==> Sectors(d, lba, 1).value == d(lba).value
  {
    NoSectors(d, lba);
    assert Sectors(d, lba, 1) == Both(Sectors(d, lba, 0), One(d, lba));
    if d(lba).Some? { assert [] + d(lba).value == d(lba).value; }
  }

  lemma NoSectors(d: Image, lba: u32)
    ensures Sectors(d, lba, 0) == Some([])
  {
  }

  /** The k-th cluster after the first, following the table without looking at end marks. */
  ghost function Cluster(links: Links, first: u32, k: nat): u32 {
    if k == 0 then first else links(Cluster(links, first, k - 1))
  }

  /** No end mark was met on the way to cluster k. */
  ghost predicate Reached(links: Links, first: u32, k: nat) {
    k == 0 || (Reached(links, first, k - 1) && Cluster(links, first, k) < EOC)
  }

  lemma {:induction false} ReachedBefore(links: Links, first: u32, j: nat, k: nat)
    requires j <= k && Reached(links, first, k)
    ensures Reached(links, first, j)
  {
    if j < k { ReachedBefore(links, first, j, k - 1); }
  }

  ghost function ClusterData(v: Volume, cluster: u32): (r: Option<seq<u8>>)
    ensures r.Some? ==> |r.value| == ClusterSize(v)
  {
    Sectors(v.disk, ClusterLba(v, cluster), v.sectorsPerCluster)
  }

  /** The clusters that a walk from first finds, before it meets an end mark. */
  ghost function Found(links: Links, data: u32 -> Option<seq<u8>>, first: u32): Blocks {
    (i: nat) =>
      if Reached(links, first, i) && Cluster(links, first, i) < EOC then data(Cluster(links, first, i)) else None
  }

  ghost function DataOf(v: Volume): u32 -> Option<seq<u8>> {
    (c: u32) => ClusterData(v, c)
  }

  /** The file as a sequence of clusters. */
  ghost function FileBlocks(v: Volume, first: u32): (b: Blocks)
    requires Usable(v)
    ensures Sized(b, ClusterSize(v))
  {
    var b := Found(LinksOf(v), DataOf(v), first);
    assert Sized(b, ClusterSize(v)) by {
      forall i | b(i).Some?
        ensures |b(i).value| == ClusterSize(v)
      {
        assert b(i) == DataOf(v)(Cluster(LinksOf(v), first, i)) == ClusterData(v, Cluster(LinksOf(v), first, i));
      }
    }
    b
  }

  lemma FileBlockAt(v: Volume, first: u32, i: nat)
    requires Usable(v)
    ensures var c := Cluster(LinksOf(v), first, i);
            FileBlocks(v, first)(i) == if Reached(LinksOf(v), first, i) && c < EOC then ClusterData(v, c) else None
  {
    var c := Cluster(LinksOf(v), first, i);
    assert DataOf(v)(c) == ClusterData(v, c);
  }

  ghost function Bytes(v: Volume, first: u32): nat -> Option<u8>
    requires Usable(v)
  {
    PlainBytes(FileBlocks(v, first), ClusterSize(v))
  }

  // -------------------------------------------------------------------------------- reading

  /** fat32_read_sectors: batches of at most 255 sectors. */
  method ReadSectors(v: Volume, lba: u32, count: u32, buf: array<u8>) returns (ok: bool)
    requires v.bytesPerSector == 512 && 512 * count <= buf.Length
    modifies buf
    ensures ok <==> Sectors(v.disk, lba, count).Some?
    ensures ok ==> buf[..512 * count] == Sectors(v.disk, lba, count).value
  {
    var done: nat := 0;
    while done < count
      invariant done <= count && Sectors(v.disk, lba, done).Some?
      invariant buf[..512 * done] == Sectors(v.disk, lba, done).value
    {
      var batch: u8 := if count - done > 255 then 255 else count - done;
      var got := ReadBatch(v.disk, lba, done, batch, buf);
      if !got {
        FailureStays(v.disk, lba, done + batch, count);
        return false;
      }
      done := done + batch;
    }
    ok := true;
  }

  /** One batch behind the sectors already read. */
  method ReadBatch(d: Image, lba: u32, done: nat, batch: u8, buf: array<u8>) returns (ok: bool)
    requires 512 * (done + batch) <= buf.Length && Sectors(d, lba, done) == Some(buf[..512 * done])
    modifies buf
    ensures ok <==> Sectors(d, lba, done + batch).Some?
    ensures ok ==> Sectors(d, lba, done + batch) == Some(buf[..512 * (done + batch)])
  {
    SectorsSplit(d, lba, done, batch);
    ghost var before := buf[..512 * done];
    ok := IdeRead(d, Wrap(lba + done), batch, buf, 512 * done);
    assert buf[..512 * (done + batch)] == before + buf[512 * done..512 * done + 512 * batch];
  }

  /** A walk without an end mark so far is at cluster number i. */
  ghost predicate On(links: Links, first: u32, i: nat, cluster: u32) {
    cluster == Cluster(links, first, i) && Reached(links, first, i)
  }

  lemma OnNext(links: Links, first: u32, i: nat, next: u32, steps: nat)
    requires Reached(links, first, i) && next == links(Cluster(links, first, i)) && i < steps
    ensures if next < EOC then On(links, first, i + 1, next) else !Reached(links, first, steps)
  {
    if Reached(links, first, steps) { ReachedBefore(links, first, i + 1, steps); }
  }

  /** The first loop of fat32_read: the cluster of the first wanted byte, unless the chain ends before it. */
  method Walk(v: Volume, first: u32, steps: nat) returns (ok: bool, cluster: u32)
    requires v.bytesPerSector == 512
    ensures ok <==> Reached(LinksOf(v), first, steps)
    ensures ok ==> cluster == Cluster(LinksOf(v), first, steps)
  {
    cluster := first;
    var i := 0;
    while i < steps
      invariant 0 <= i <= steps && On(LinksOf(v), first, i, cluster)
    {
      cluster := NextCluster(v, cluster);
      OnNext(LinksOf(v), first, i, cluster, steps);
      i := i + 1;
      if cluster >= EOC { return false, cluster; }
    }
    ok := true;
  }

  /**
   fat32_read of the file that starts at cluster first; memory says whether kmalloc gives
   the cluster buffer. It terminates for every table, since each round delivers something.
   */
  method Read(v: Volume, first: u32, fileSize: u32, offset: u32, size: u32, buf: array<u8>, memory: bool)
      returns (r: int)
    requires Usable(v) && size <= buf.Length
    modifies buf
    ensures offset >= fileSize ==> r == 0 && buf[..] == old(buf[..])
    ensures offset < fileSize && !memory ==>
              r == (if Reached(LinksOf(v), first, Quot(offset, ClusterSize(v))) then -1 else 0)
                  && buf[..] == old(buf[..])
    ensures offset < fileSize && memory ==>
              exists n: u32 ::
                r == Signed(n) && Outside(buf, 0, n)
                && Delivered(Bytes(v, first), offset, Wanted(offset, size, fileSize), buf[..], n)
  {
    if offset >= fileSize { return 0; }
    var wanted := Wanted(offset, size, fileSize);
    var steps, intra := DivMod(offset, ClusterSize(v));
    var ok, cluster := Walk(v, first, steps);
    if !ok {
      FileBlockAt(v, first, steps);
      assert Signed(0) == 0;
      return 0;
    }
    if !memory { return -1; }
    var n := ReadClusters(v, first, offset, wanted, cluster, intra, buf);
    r := Signed(n);
  }

  /** The second loop of fat32_read. */
  method ReadClusters(v: Volume, first: u32, offset: u32, wanted: u32, start: u32, at: nat, buf: array<u8>)
      returns (n: u32)
    requires Usable(v) && wanted <= buf.Length
    requires Stands(v, first, offset, start, at)
    modifies buf
    ensures Delivered(Bytes(v, first), offset, wanted, buf[..], n) && Outside(buf, 0, n)
  {
    var clusterBuf := new u8[ClusterSize(v)];
    n := ReadRounds(v, first, offset, wanted, start, at, clusterBuf, buf);
  }

  /** Its rounds, until everything is there, the chain ends, or a cluster cannot be read. */
  method ReadRounds(v: Volume, first: u32, offset: u32, wanted: u32, start: u32, at: nat, clusterBuf: array<u8>,
                    buf: array<u8>)
    returns (n: u32)
    requires Usable(v) && wanted <= buf.Length && Stands(v, first, offset, start, at)
    requires clusterBuf.Length == ClusterSize(v) && clusterBuf != buf
    modifies buf, clusterBuf
    ensures Delivered(Bytes(v, first), offset, wanted, buf[..], n) && Outside(buf, 0, n)
  {
    var cluster: u32, intra: nat := start, at;
    n := 0;
    while n < wanted && cluster < EOC
      invariant Underway(v, first, offset, wanted, buf[..], n, cluster, intra) && Outside(buf, 0, n)
      decreases wanted - n
    {
      var m, next := ReadCluster(v, first, offset, wanted, n, cluster, intra, clusterBuf, buf);
      if m == n { return; }
      n, cluster, intra := m, next, 0;
    }
    Arrived(v, first, offset, wanted, buf[..], n, cluster, intra);
  }

  /** n of the wanted bytes are there, and the walk has come to the next one, if there is one. */
  ghost predicate Underway(v: Volume, first: u32, offset: nat, wanted: nat, data: seq<u8>, n: nat, cluster: u32,
                           intra: nat)
    requires Usable(v)
  {
    n <= wanted && DeliveredTo(Bytes(v, first), offset, data, n)
    && (n < wanted ==> Stands(v, first, offset + n, cluster, intra))
  }

  lemma Arrived(v: Volume, first: u32, offset: nat, wanted: nat, data: seq<u8>, n: nat, cluster: u32, intra: nat)
    requires Usable(v) && Underway(v, first, offset, wanted, data, n, cluster, intra)
    requires n >= wanted || cluster >= EOC
    ensures Delivered(Bytes(v, first), offset, wanted, data, n)
  {
    if n < wanted { EndOfChain(v, first, offset + n, cluster, intra); }
  }

  /** Behind an end mark there is nothing to read. */
  lemma EndOfChain(v: Volume, first: u32, pos: nat, cluster: u32, intra: nat)
    requires Usable(v) && Stands(v, first, pos, cluster, intra) && cluster >= EOC
    ensures Bytes(v, first)(pos) == None
  {
    FileBlockAt(v, first, Quot(pos, ClusterSize(v)));
  }

  /** The cluster of file position pos, the offset in it, and whether the walk meets no end mark before it. */
  ghost function Where(v: Volume, first: u32, pos: nat): (u32, nat, bool)
    requires Usable(v)
  {
    var q := Quot(pos, ClusterSize(v));
    (Cluster(LinksOf(v), first, q), Rem(pos, ClusterSize(v)), q == 0 || Reached(LinksOf(v), first, q - 1))
  }

  /** The walk has come to position pos: it is in this cluster, behind intra bytes of it. */
  ghost predicate Stands(v: Volume, first: u32, pos: nat, cluster: u32, intra: nat)
    requires Usable(v)
  {
    Where(v, first, pos) == (cluster, intra, true)
  }

  lemma NextChunk(v: Volume, first: u32, pos: nat, cluster: u32, intra: nat, size: nat, next: u32)
    requires Usable(v) && Stands(v, first, pos, cluster, intra) && cluster < EOC
    requires intra < size == ClusterSize(v) && next == LinksOf(v)(cluster)
    ensures Stands(v, first, pos + (size - intra), next, 0)
  {
    QuotRemNext(pos, ClusterSize(v));
  }

  /** One round: m bytes are then delivered, as many as before if the cluster cannot be read. */
  method ReadCluster(v: Volume, first: u32, offset: u32, wanted: u32, n: u32, cluster: u32, intra: nat,
                     clusterBuf: array<u8>, buf: array<u8>)
    returns (m: u32, next: u32)
    requires Usable(v) && n < wanted <= buf.Length && clusterBuf.Length == ClusterSize(v) && clusterBuf != buf
    requires Underway(v, first, offset, wanted, buf[..], n, cluster, intra) && cluster < EOC
    modifies clusterBuf, buf
    ensures n <= m <= wanted && Outside(buf, n, m)
    ensures m == n ==> Delivered(Bytes(v, first), offset, wanted, buf[..], n)
    ensures m > n ==> Underway(v, first, offset, wanted, buf[..], m, next, 0)
  {
    ghost var after;
    m, next, after := LoadAndCopy(v, first, offset, wanted, n, cluster, intra, clusterBuf, buf);
  }

  method LoadAndCopy(v: Volume, first: u32, offset: u32, wanted: u32, n: u32, cluster: u32, intra: nat,
                     clusterBuf: array<u8>, buf: array<u8>)
    returns (m: u32, next: u32, ghost after: nat)
    requires Usable(v) && n < wanted <= buf.Length && clusterBuf.Length == ClusterSize(v) && clusterBuf != buf
    requires Stands(v, first, offset + n, cluster, intra) && cluster < EOC
             && DeliveredTo(Bytes(v, first), offset, buf[..], n)
    modifies clusterBuf, buf
    ensures n <= m <= wanted && DeliveredTo(Bytes(v, first), offset, buf[..], m) && Outside(buf, n, m)
    ensures m == n ==> Bytes(v, first)(offset + n) == None
    ensures n < m < wanted ==> offset + m == after && Stands(v, first, after, next, 0)
  {
    m := n;
    var ok;
    ok, next, after := LoadCluster(v, first, offset + n, cluster, intra, clusterBuf);
    if ok { m := CopyRest(Bytes(v, first), offset, wanted, n, clusterBuf, intra, buf); }
  }

  /** The rest of the cluster goes behind the n bytes already delivered. */
  method CopyRest(ghost byte: nat -> Option<u8>, ghost offset: nat, wanted: u32, n: u32, cluster: array<u8>, intra: nat,
                  buf: array<u8>)
    returns (m: u32)
    requires n < wanted <= buf.Length && intra < cluster.Length && cluster != buf
    requires Holds(byte, offset + n, cluster[intra..]) && DeliveredTo(byte, offset, buf[..], n)
    modifies buf
    ensures n < m <= wanted && (m < wanted ==> m == n + (cluster.Length - intra))
    ensures DeliveredTo(byte, offset, buf[..], m) && Outside(buf, n, m)
  {
    var chunk := CopyChunk(byte, offset, wanted, n, cluster[intra..], buf);
    m := n + chunk;
  }

  /** The cluster for file position pos, and the one after it. */
  method LoadCluster(v: Volume, first: u32, ghost pos: nat, cluster: u32, intra: nat, clusterBuf: array<u8>)
      returns (ok: bool, next: u32, ghost after: nat)
    requires Usable(v) && clusterBuf.Length == ClusterSize(v) && Stands(v, first, pos, cluster, intra)
             && cluster < EOC
    modifies clusterBuf
    ensures intra < clusterBuf.Length
    ensures ok ==> Holds(Bytes(v, first), pos, clusterBuf[intra..]) && after == pos + (clusterBuf.Length - intra)
    ensures ok ==> Stands(v, first, after, next, 0)
    ensures !ok ==> Bytes(v, first)(pos) == None
  {
    ClusterHere(v, first, pos, cluster, intra);
    var lba := ClusterToLba(v, cluster);
    ok := ReadSectors(v, lba, v.sectorsPerCluster, clusterBuf);
    if !ok { return false, cluster, pos; }
    assert ClusterData(v, cluster).value[intra..] == clusterBuf[intra..];
    next, after := ClusterAfter(v, first, pos, cluster, intra, clusterBuf.Length);
  }

  method ClusterAfter(v: Volume, first: u32, ghost pos: nat, cluster: u32, ghost intra: nat, ghost size: nat)
    returns (next: u32, ghost after: nat)
    requires Usable(v) && Stands(v, first, pos, cluster, intra) && cluster < EOC
    requires intra < size == ClusterSize(v)
    ensures after == pos + (size - intra) && Stands(v, first, after, next, 0)
  {
    after := pos + (size - intra);
    next := NextCluster(v, cluster);
    NextChunk(v, first, pos, cluster, intra, size, next);
  }

  /** What reading the cluster of position pos says about the file. */
  lemma ClusterHere(v: Volume, first: u32, pos: nat, cluster: u32, intra: nat)
    requires Usable(v) && Stands(v, first, pos, cluster, intra) && cluster < EOC
    ensures intra < ClusterSize(v)
    ensures var data := ClusterData(v, cluster);
            if data.Some? then Holds(Bytes(v, first), pos, data.value[intra..]) else Bytes(v, first)(pos) == None
  {
    FileBlockAt(v, first, Quot(pos, ClusterSize(v)));
    var data := ClusterData(v, cluster);
    if data.Some? { PlainRest(FileBlocks(v, first), ClusterSize(v), pos, data.value[intra..]); }
  }

  // ------------------------------------------------------------------------- what is read

  /** A well-formed chain: it ends with an end mark and nowhere before. */
  ghost predicate IsChain(links: Links, first: u32, chain: seq<u32>)
  {
    chain != [] && chain[0] == first && (forall i :: 0 <= i < |chain| ==> chain[i] < EOC)
    && (forall i :: 0 <= i < |chain| - 1 ==> chain[i + 1] == links(chain[i])) && links(chain[|chain| - 1]) >= EOC
  }

  lemma {:induction false} ChainClusters(links: Links, first: u32, chain: seq<u32>, i: nat)
    requires IsChain(links, first, chain) && i < |chain|
    ensures Cluster(links, first, i) == chain[i] && Reached(links, first, i)
  {
    if i > 0 { ChainClusters(links, first, chain, i - 1); }
  }

  /** The clusters of a chain, each looked up on the disk. */
  ghost function ChainBlocks(v: Volume, chain: seq<u32>): Blocks {
    (i: nat) => if i < |chain| then ClusterData(v, chain[i]) else None
  }

  lemma ChainIsFile(v: Volume, first: u32, chain: seq<u32>, i: nat)
    requires Usable(v) && IsChain(LinksOf(v), first, chain)
    ensures FileBlocks(v, first)(i) == ChainBlocks(v, chain)(i)
  {
    FileBlockAt(v, first, i);
    if i < |chain| {
      ChainClusters(LinksOf(v), first, chain, i);
    } else {
      ChainClusters(LinksOf(v), first, chain, |chain| - 1);
      assert Cluster(LinksOf(v), first, |chain|) >= EOC;
      if Reached(LinksOf(v), first, i) { ReachedBefore(LinksOf(v), first, |chain|, i); }
    }
  }

  /**
   The whole read: for a well-formed chain of readable clusters and a range whose end does
   not wrap, the slice of the concatenated clusters, clipped to the file size and cut short
   only by the end of the chain.
   */
  lemma ReadIsSlice(v: Volume, first: u32, chain: seq<u32>, fileSize: u32, offset: u32, size: u32, data: seq<u8>,
                    n: nat)
    requires Usable(v) && IsChain(LinksOf(v), first, chain) && Readable(ChainBlocks(v, chain), |chain|)
    requires offset < fileSize && offset + size < 0x1_0000_0000
    requires Delivered(Bytes(v, first), offset, Wanted(offset, size, fileSize), data, n)
    ensures var file := Content(ChainBlocks(v, chain), |chain|);
            var end := Min(Min(offset + size, fileSize), |file|);
            |file| == |chain| * (ClusterSize(v))
            && n == (if offset < end then end - offset else 0) && (offset < end ==> data[..n] == file[offset..end])
  {
    var bs, found := ClusterSize(v), FileBlocks(v, first);
    var total := |chain| * bs;
    WantedClipsIff(offset, size, fileSize);
    forall i: nat
      ensures found(i) == ChainBlocks(v, chain)(i)
    {
      ChainIsFile(v, first, chain, i);
    }
    SameContent(ChainBlocks(v, chain), found, |chain|);
    FlattenLength(seq(|chain|, i requires 0 <= i < |chain| => found(i).value), bs);
    CutAtEnd(found, bs, |chain|, Bytes(v, first), offset, Wanted(offset, size, fileSize), data, n);
  }

  /** A file that stops after count blocks delivers what there is. */
  lemma CutAtEnd(blocks: Blocks, size: nat, count: nat, byte: nat -> Option<u8>, offset: nat, wanted: nat,
                 data: seq<u8>, n: nat)
    requires Sized(blocks, size) && Readable(blocks, count) && blocks(count).None?
    requires forall pos :: byte(pos) == ByteOf(blocks, size, pos)
    requires forall i :: i >= count ==> blocks(i).None?
    requires Delivered(byte, offset, wanted, data, n)
    ensures |Content(blocks, count)| == count * size
    ensures var end := Min(offset + wanted, count * size);
            n == (if offset < end then end - offset else 0)
                && (offset < end ==> data[..n] == Content(blocks, count)[offset..end])
  {
    FlattenLength(seq(count, i requires 0 <= i < count => blocks(i).value), size);
    if offset + n < count * size && n < wanted { ByteOfContent(blocks, size, count, offset + n); }
    forall k | 0 <= k < n
      ensures offset + k < count * size && data[k] == Content(blocks, count)[offset + k]
    {
      assert byte(offset + k) == Some(data[k]);
      ByteInside(blocks, size, count, offset + k, data[k]);
    }
    if n > 0 {
      assert byte(offset + (n - 1)) == Some(data[n - 1]);
      ByteInside(blocks, size, count, offset + (n - 1), data[n - 1]);
    }
  }

  /** A byte that can be read lies before the end, and is the byte of the content there. */
  lemma ByteInside(blocks: Blocks, size: nat, count: nat, pos: nat, b: u8)
    requires Sized(blocks, size) && Readable(blocks, count) && ByteOf(blocks, size, pos) == Some(b)
    requires forall i :: i >= count ==> blocks(i).None?
    ensures pos < count * size == |Content(blocks, count)| && Content(blocks, count)[pos] == b
  {
    BeyondEnd(blocks, size, count, pos);
    ByteOfContent(blocks, size, count, pos);
  }

  lemma BeyondEnd(blocks: Blocks, size: nat, count: nat, pos: nat)
    requires Sized(blocks, size) && forall i :: i >= count ==> blocks(i).None?
    ensures pos >= count * size ==> ByteOf(blocks, size, pos).None?
  {
    QuotRem(pos, size);
    if pos >= count * size && Quot(pos, size) < count { RowBefore(size, Quot(pos, size), Rem(pos, size), count - 1); }
  }

  /** A cyclic table has no end: every wanted byte is delivered, cluster by cluster around the cycle. */
  lemma CyclicReadIsComplete(v: Volume, first: u32, i: nat, j: nat, offset: u32, wanted: nat, data: seq<u8>, n: nat)
    requires Usable(v) && i < j && Cluster(LinksOf(v), first, i) == Cluster(LinksOf(v), first, j)
    requires forall k ::
               0 <= k < j
               ==> Cluster(LinksOf(v), first, k) < EOC && ClusterData(v, Cluster(LinksOf(v), first, k)).Some?
    requires Delivered(Bytes(v, first), offset, wanted, data, n)
    ensures n == wanted
  {
    if n < wanted { CyclicByte(v, first, i, j, offset + n); }
  }

  lemma CyclicByte(v: Volume, first: u32, i: nat, j: nat, pos: nat)
    requires Usable(v) && i < j && Cluster(LinksOf(v), first, i) == Cluster(LinksOf(v), first, j)
    requires forall k ::
               0 <= k < j
               ==> Cluster(LinksOf(v), first, k) < EOC && ClusterData(v, Cluster(LinksOf(v), first, k)).Some?
    ensures Bytes(v, first)(pos).Some?
  {
    var q := Quot(pos, ClusterSize(v));
    CycleReached(LinksOf(v), first, i, j, q);
    var m := CycleMember(LinksOf(v), first, i, j, q);
    FileBlockAt(v, first, q);
  }

  lemma {:induction false} CycleReached(links: Links, first: u32, i: nat, j: nat, k: nat)
    requires i < j && Cluster(links, first, i) == Cluster(links, first, j)
    requires forall m :: 0 <= m < j ==> Cluster(links, first, m) < EOC
    ensures Reached(links, first, k)
  {
    if k > 0 {
      CycleReached(links, first, i, j, k - 1);
      var m := CycleMember(links, first, i, j, k);
    }
  }

  lemma {:induction false} CycleMember(links: Links, first: u32, i: nat, j: nat, k: nat) returns (m: nat)
    requires i < j && Cluster(links, first, i) == Cluster(links, first, j)
    ensures m < j && Cluster(links, first, m) == Cluster(links, first, k)
  {
    if k < j {
      m := k;
    } else {
      m := CycleMember(links, first, i, j, k - 1);
      m := m + 1;
      if m == j { m := i; }
    }
  }
}
