/**
 Directories of an ext2 volume, as kernal/fs/ext2.c reads them: listing by index and lookup
 by name walk the same records, and must agree on what is there.
 */
module Ext2Dir {
  import opened Words
  import opened Disk
  import opened Ext2

  /** A directory record in use. */
  datatype Dirent = Dirent(inode: u32, kind: u8, name: seq<u8>)

  // --------------------------------------------------------------------- records of a block

  function RecLen(b: seq<u8>, pos: nat): nat
    requires pos + 8 <= |b|
  {
    (b[pos + 4] as int) + 0x100 * (b[pos + 5] as int)
  }

  function NameLen(b: seq<u8>, pos: nat): nat
    requires pos + 8 <= |b|
  {
    b[pos + 6]
  }

  function Record(b: seq<u8>, pos: nat): Dirent
    requires pos + 8 <= |b| && pos + 8 + NameLen(b, pos) <= |b|
  {
    Dirent(Le32(b, pos), b[pos + 7], b[pos + 8..pos + 8 + NameLen(b, pos)])
  }

  /** From pos on, records and their names stay inside the block, and names hold no NUL. */
  predicate WellFormed(b: seq<u8>, pos: nat)
    decreases |b| - pos
  {
    pos < |b| ==>
      pos + 8 <= |b| && pos + 8 + NameLen(b, pos) <= |b| && 0 !in Record(b, pos).name
      && (RecLen(b, pos) > 0 ==> WellFormed(b, pos + RecLen(b, pos)))
  }

  /** The records in use from pos on; a record length of 0 ends the block. */
  function Scan(b: seq<u8>, pos: nat): seq<Dirent>
    requires WellFormed(b, pos)
    decreases |b| - pos
  {
    if pos >= |b| || RecLen(b, pos) == 0 then []
    else (if Record(b, pos).inode != 0 then [Record(b, pos)] else []) + Scan(b, pos + RecLen(b, pos))
  }

  // -------------------------------------------------------------------- the whole directory

  /** Block bi belongs to the directory's records: a direct block with a number that can be read. */
  function HasBlock(v: Volume, ino: Inode, bi: nat): bool
    requires Usable(v) && |ino.blocks| == 15
  {
    bi < 12 && ino.blocks[bi] != 0 && FileBlock(v, ino, bi).Some?
  }

  ghost predicate Sane(v: Volume, ino: Inode)
    requires Usable(v) && |ino.blocks| == 15
  {
    forall bi: nat :: HasBlock(v, ino, bi) ==> WellFormed(FileBlock(v, ino, bi).value, 0)
  }

  /** All records in use, in order, up to the first block that is missing or cannot be read. */
  ghost function Listing(v: Volume, ino: Inode, bi: nat): seq<Dirent>
    requires Usable(v) && |ino.blocks| == 15 && Sane(v, ino)
    decreases |ino.blocks| - bi
  {
    if !HasBlock(v, ino, bi) then [] else Scan(FileBlock(v, ino, bi).value, 0) + Listing(v, ino, bi + 1)
  }

  /** The first record with this name. */
  function FirstNamed(es: seq<Dirent>, name: seq<u8>): Option<Dirent> {
    if es == [] then None else if es[0].name == name then Some(es[0]) else FirstNamed(es[1..], name)
  }

  /** The lookup: per block the first record with the name, unless its inode cannot be read. */
  ghost function Lookup(v: Volume, ino: Inode, name: seq<u8>, bi: nat): Option<Dirent>
    requires Usable(v) && |ino.blocks| == 15 && Sane(v, ino)
    decreases |ino.blocks| - bi
  {
    if !HasBlock(v, ino, bi) then None
    else
      var e := FirstNamed(Scan(FileBlock(v, ino, bi).value, 0), name);
      if e.Some? && InodeAt(v, e.value.inode).Some? then e else Lookup(v, ino, name, bi + 1)
  }

  // ------------------------------------------------------------------------- they must agree

  ghost predicate UniqueNames(es: seq<Dirent>) {
    forall i, j :: 0 <= i < j < |es| ==> es[i].name != es[j].name
  }

  lemma {:induction false} FirstNamedSpec(es: seq<Dirent>, name: seq<u8>)
    ensures FirstNamed(es, name).Some? ==> FirstNamed(es, name).value in es && FirstNamed(es, name).value.name == name
    ensures FirstNamed(es, name).None? <==> forall e :: e in es ==> e.name != name
  {
    if es != [] { FirstNamedSpec(es[1..], name); }
  }

  /** Whatever the lookup finds is listed under that name, and its inode can be read. */
  lemma {:induction false} FoundIsListed(v: Volume, ino: Inode, name: seq<u8>, bi: nat)
    requires Usable(v) && |ino.blocks| == 15 && Sane(v, ino)
    ensures var e := Lookup(v, ino, name, bi);
            e.Some? ==> e.value in Listing(v, ino, bi) && e.value.name == name && InodeAt(v, e.value.inode).Some?
    decreases |ino.blocks| - bi
  {
    if HasBlock(v, ino, bi) {
      FirstNamedSpec(Scan(FileBlock(v, ino, bi).value, 0), name);
      FoundIsListed(v, ino, name, bi + 1);
    }
  }

  /** In a directory without duplicate names, everything listed with a readable inode is found. */
  lemma {:induction false} ListedIsFound(v: Volume, ino: Inode, e: Dirent, bi: nat)
    requires Usable(v) && |ino.blocks| == 15 && Sane(v, ino) && UniqueNames(Listing(v, ino, bi))
    requires e in Listing(v, ino, bi) && InodeAt(v, e.inode).Some?
    ensures Lookup(v, ino, e.name, bi) == Some(e)
    decreases |ino.blocks| - bi
  {
    var here, rest := Scan(FileBlock(v, ino, bi).value, 0), Listing(v, ino, bi + 1);
    assert Listing(v, ino, bi) == here + rest;
    FirstNamedSpec(here, e.name);
    UniqueParts(here, rest, e);
    if e !in here { ListedIsFound(v, ino, e, bi + 1); }
  }

  lemma UniqueParts(a: seq<Dirent>, b: seq<Dirent>, e: Dirent)
    requires UniqueNames(a + b)
    ensures UniqueNames(b) && (e in b ==> forall x :: x in a ==> x.name != e.name)
    ensures e in a ==> forall x :: x in a && x.name == e.name ==> x == e
  {
    var c := a + b;
    forall i, j | 0 <= i < j < |b|
      ensures b[i].name != b[j].name
    {
      assert c[|a| + i] == b[i] && c[|a| + j] == b[j];
    }
    forall x | x in a && e in b
      ensures x.name != e.name
    {
      var i :| 0 <= i < |a| && a[i] == x;
      var j :| 0 <= j < |b| && b[j] == e;
      assert c[i] == x && c[|a| + j] == e;
    }
    forall x | x in a && e in a && x.name == e.name
      ensures x == e
    {
      var i :| 0 <= i < |a| && a[i] == x;
      var j :| 0 <= j < |a| && a[j] == e;
      assert c[i] == x && c[j] == e;
    }
  }

  /**
   Listing and lookup agree on a directory without duplicate names: a name is found exactly
   when it is listed with an inode that can be read, and then the listed record is found.
   */
  lemma DirectoriesAgree(v: Volume, ino: Inode, name: seq<u8>)
    requires Usable(v) && |ino.blocks| == 15 && Sane(v, ino) && UniqueNames(Listing(v, ino, 0))
    ensures Lookup(v, ino, name, 0).Some?
            <==> exists e :: e in Listing(v, ino, 0) && e.name == name && InodeAt(v, e.inode).Some?
    ensures forall e ::
              e in Listing(v, ino, 0) && e.name == name && InodeAt(v, e.inode).Some?
              ==> Lookup(v, ino, name, 0) == Some(e)
  {
    FoundIsListed(v, ino, name, 0);
    forall e | e in Listing(v, ino, 0) && e.name == name && InodeAt(v, e.inode).Some?
      ensures Lookup(v, ino, name, 0) == Some(e)
    {
      ListedIsFound(v, ino, e, 0);
    }
  }

  // ----------------------------------------------------------------------------- the readers

  /** ext2_vfs_readdir: the record with this index; None for what is no directory. */
  method Readdir(v: Volume, inum: u32, idx: u32) returns (r: Option<Dirent>)
    requires Usable(v) && (InodeAt(v, inum).Some? ==> Sane(v, InodeAt(v, inum).value))
    ensures var ino := InodeAt(v, inum);
            r == if ino.Some? && IsDirectory(ino.value) then At(Listing(v, ino.value, 0), idx) else None
  {
    var i := ReadInode(v, inum);
    if i.None? { return None; }
    var ino := i.value;
    if !IsDirectory(ino) { return None; }
    var block := new u8[v.blockSize];
    var count: nat, bi := 0, 0;
    while bi < 12
      invariant 0 <= bi <= 12 && fresh(block) && count <= idx
      invariant At(Listing(v, ino, 0), idx) == At(Listing(v, ino, bi), idx - count)
    {
      var more;
      more, r, count := NthInBlock(v, ino, bi, block, idx, count);
      if !more { return; }
      bi := bi + 1;
    }
    r := None;
  }

  /** One directory block, with count records before it; without more, the search is over. */
  method NthInBlock(v: Volume, ino: Inode, bi: nat, block: array<u8>, idx: u32, count: nat)
      returns (more: bool, r: Option<Dirent>, total: nat)
    requires Usable(v) && |ino.blocks| == 15 && Sane(v, ino) && bi < 12 && block.Length == v.blockSize && count <= idx
    modifies block
    ensures !more ==> r == At(Listing(v, ino, bi), idx - count)
    ensures more ==> count <= total <= idx
                     && At(Listing(v, ino, bi), idx - count) == At(Listing(v, ino, bi + 1), idx - total)
  {
    if ino.blocks[bi] == 0 { return false, None, count; }
    var ok := ReadInodeBlock(v, ino, bi, block);
    if !ok { return false, None, count; }
    assert block[..] == FileBlock(v, ino, bi).value && HasBlock(v, ino, bi);
    AtConcat(Scan(block[..], 0), Listing(v, ino, bi + 1), idx - count);
    r, total := Nth(block[..], idx, count);
    more := r.None?;
  }

  /** Element k, if there is one. */
  function At(es: seq<Dirent>, k: nat): Option<Dirent> {
    if k < |es| then Some(es[k]) else None
  }

  lemma AtConcat(a: seq<Dirent>, b: seq<Dirent>, k: nat)
    ensures At(a + b, k) == if k < |a| then Some(a[k]) else At(b, k - |a|)
  {
  }

  /** One record of the scan, counted. */
  lemma ScanStep(b: seq<u8>, pos: nat, k: nat)
    requires pos < |b| && WellFormed(b, pos) && RecLen(b, pos) > 0
    ensures var rest := Scan(b, pos + RecLen(b, pos));
            if Le32(b, pos) == 0 then Scan(b, pos) == rest
            else
              |Scan(b, pos)| == 1 + |rest|
              && At(Scan(b, pos), k) == if k == 0 then Some(Record(b, pos)) else At(rest, k - 1)
  {
    var rest := Scan(b, pos + RecLen(b, pos));
    if Record(b, pos).inode == 0 {
      assert [] + rest == rest;
    } else {
      AtConcat([Record(b, pos)], rest, k);
    }
  }

  /** One record of the scan, by name. */
  lemma ScanName(b: seq<u8>, pos: nat, name: seq<u8>)
    requires pos < |b| && WellFormed(b, pos) && RecLen(b, pos) > 0
    ensures var rest := Scan(b, pos + RecLen(b, pos));
            FirstNamed(Scan(b, pos), name)
            == if Le32(b, pos) != 0 && Record(b, pos).name == name then Some(Record(b, pos)) else FirstNamed(rest, name)
  {
    var rest := Scan(b, pos + RecLen(b, pos));
    if Record(b, pos).inode == 0 {
      assert [] + rest == rest;
    } else {
      assert ([Record(b, pos)] + rest)[1..] == rest;
    }
  }

  /** i_mode & EXT2_S_IFDIR */
  predicate IsDirectory(ino: Inode) {
    (ino.mode / 0x4000) % 2 == 1
  }

  /**
   The test is for one bit, so of the kinds that ext2 has (the upper four bits of the mode) it
   takes block devices (6) and sockets (12) for directories (4) as well.
   */
  lemma IsDirectoryIff(ino: Inode)
    ensures var kind := ino.mode / 0x1000; IsDirectory(ino) <==> 4 <= kind < 8 || 12 <= kind
  {
    var kind := ino.mode / 0x1000;
    assert ino.mode / 0x4000 == kind / 4;
  }

  /** From pos on there are n more records, and the one that is left away from here is wanted. */
  ghost predicate Remaining(b: seq<u8>, pos: nat, left: nat, n: nat, want: Option<Dirent>)
    requires WellFormed(b, pos)
  {
    |Scan(b, pos)| == n && At(Scan(b, pos), left) == want
  }

  lemma RemainingStep(b: seq<u8>, pos: nat, left: nat, n: nat, want: Option<Dirent>)
    requires pos < |b| && WellFormed(b, pos) && RecLen(b, pos) > 0 && Remaining(b, pos, left, n, want)
    ensures var next := pos + RecLen(b, pos);
            if Le32(b, pos) == 0 then Remaining(b, next, left, n, want)
            else if left == 0 then want == Some(Record(b, pos))
            else n > 0 && Remaining(b, next, left - 1, n - 1, want)
  {
    ScanStep(b, pos, left);
  }

  /** The inner loop of ext2_vfs_readdir, with count records before this block. */
  method Nth(b: seq<u8>, idx: u32, count: nat) returns (r: Option<Dirent>, total: nat)
    requires WellFormed(b, 0) && count <= idx
    ensures r == At(Scan(b, 0), idx - count)
    ensures r.None? ==> total == count + |Scan(b, 0)| <= idx
  {
    var pos := 0;
    total := count;
    ghost var want, n: nat, left: nat := At(Scan(b, 0), idx - count), |Scan(b, 0)|, idx - count;
    while pos < |b|
      invariant WellFormed(b, pos) && total + left == idx && total + n == count + |Scan(b, 0)|
      invariant Remaining(b, pos, left, n, want)
      decreases |b| - pos
    {
      if RecLen(b, pos) == 0 { return None, total; }
      RemainingStep(b, pos, left, n, want);
      if Le32(b, pos) != 0 {
        if total == idx { return Some(Record(b, pos)), total; }
        total, left, n := total + 1, left - 1, n - 1;
      }
      pos := pos + RecLen(b, pos);
    }
    r := None;
  }

  /** strncmp over the record's name, and the test that the wanted name ends there. */
  method SameName(b: seq<u8>, pos: nat, name: seq<u8>) returns (same: bool)
    requires pos < |b| && WellFormed(b, pos)
    ensures same <==> Record(b, pos).name == name
  {
    var n, i := NameLen(b, pos), 0;
    while i < n
      invariant 0 <= i <= n && i <= |name| && b[pos + 8..pos + 8 + i] == name[..i]
    {
      if i == |name| || b[pos + 8 + i] != name[i] {
        assert i < |name| ==> Record(b, pos).name[i] != name[i];
        return false;
      }
      i := i + 1;
    }
    same := n == |name|;
  }

  /** From pos on the first record with the name is the one wanted. */
  ghost predicate Searched(b: seq<u8>, pos: nat, name: seq<u8>, want: Option<Dirent>)
    requires WellFormed(b, pos)
  {
    FirstNamed(Scan(b, pos), name) == want
  }

  lemma SearchedStep(b: seq<u8>, pos: nat, name: seq<u8>, want: Option<Dirent>)
    requires pos < |b| && WellFormed(b, pos) && RecLen(b, pos) > 0 && Searched(b, pos, name, want)
    ensures if Le32(b, pos) != 0 && Record(b, pos).name == name then want == Some(Record(b, pos))
            else Searched(b, pos + RecLen(b, pos), name, want)
  {
    ScanName(b, pos, name);
  }

  /** The inner loop of ext2_vfs_finddir up to the first record with the name. */
  method FindIn(b: seq<u8>, name: seq<u8>) returns (r: Option<Dirent>)
    requires WellFormed(b, 0)
    ensures r == FirstNamed(Scan(b, 0), name)
  {
    var pos := 0;
    ghost var want := FirstNamed(Scan(b, 0), name);
    while pos < |b|
      invariant WellFormed(b, pos) && Searched(b, pos, name, want)
      decreases |b| - pos
    {
      if RecLen(b, pos) == 0 { return None; }
      SearchedStep(b, pos, name, want);
      if Le32(b, pos) != 0 {
        var same := SameName(b, pos, name);
        if same { return Some(Record(b, pos)); }
      }
      pos := pos + RecLen(b, pos);
    }
    r := None;
  }

  /** ext2_vfs_finddir: the record and the inode behind it; it does not ask whether the parent is a directory. */
  method Finddir(v: Volume, inum: u32, name: seq<u8>) returns (r: Option<(Dirent, Inode)>)
    requires Usable(v) && (InodeAt(v, inum).Some? ==> Sane(v, InodeAt(v, inum).value))
    ensures InodeAt(v, inum).None? ==> r == None
    ensures InodeAt(v, inum).Some? ==>
              var e := Lookup(v, InodeAt(v, inum).value, name, 0);
              if e.None? then r == None
              else InodeAt(v, e.value.inode).Some? && r == Some((e.value, InodeAt(v, e.value.inode).value))
  {
    var i := ReadInode(v, inum);
    if i.None? { return None; }
    var ino := i.value;
    var block := new u8[v.blockSize];
    var bi := 0;
    while bi < 12
      invariant 0 <= bi <= 12 && fresh(block) && Lookup(v, ino, name, 0) == Lookup(v, ino, name, bi)
    {
      if ino.blocks[bi] == 0 { return None; }
      var ok := ReadInodeBlock(v, ino, bi, block);
      if !ok { return None; }
      assert block[..] == FileBlock(v, ino, bi).value && HasBlock(v, ino, bi);
      var e := FindIn(block[..], name);
      if e.Some? {
        var child := ReadInode(v, e.value.inode);
        if child.Some? { return Some((e.value, child.value)); }
      }
      bi := bi + 1;
    }
    r := None;
  }
}
