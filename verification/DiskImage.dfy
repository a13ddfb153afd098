/**
 A disk as it is written: integers low byte first, tables of them, and data on consecutive
 sectors. Reading gives back what stands there.
 */
module DiskImage {
  import opened Words
  import opened Disk

  // ----------------------------------------------------------------------- bytes and sectors

  function Bytes16(x: u16): (b: seq<u8>)
    ensures |b| == 2
  {
    [x % 0x100, x / 0x100]
  }

  function Bytes32(x: u32): (b: seq<u8>)
    ensures |b| == 4
  {
    [x % 0x100, (x / 0x100) % 0x100, (x / 0x1_0000) % 0x100, x / 0x100_0000]
  }

  function BytesOf(ws: seq<u32>): (b: seq<u8>)
    ensures |b| == 4 * |ws|
  {
    if ws == [] then [] else Bytes32(ws[0]) + BytesOf(ws[1..])
  }

  lemma FourBytes(x: u32)
    ensures x == x % 0x100 + 0x100 * ((x / 0x100) % 0x100) + 0x1_0000 * ((x / 0x1_0000) % 0x100)
                 + 0x100_0000 * (x / 0x100_0000)
  {
  }

  lemma Read32(b: seq<u8>, at: nat, x: u32)
    requires at + 4 <= |b| && b[at..at + 4] == Bytes32(x)
    ensures Le32(b, at) == x
  {
    var c := b[at..at + 4];
    assert b[at] == c[0] && b[at + 1] == c[1] && b[at + 2] == c[2] && b[at + 3] == c[3];
    FourBytes(x);
  }

  lemma Sub(b: seq<u8>, at: nat, c: seq<u8>, i: nat, j: nat)
    requires at + |c| <= |b| && b[at..at + |c|] == c && i <= j <= |c|
    ensures b[at + i..at + j] == c[i..j]
  {
    forall k | i <= k < j
      ensures b[at + k] == c[k]
    {
      assert b[at..at + |c|][k] == b[at + k];
    }
  }

  /** Word k of a written table is read back. */
  lemma {:induction false} ReadWords(b: seq<u8>, at: nat, ws: seq<u32>, k: nat)
    requires at + 4 * |ws| <= |b| && b[at..at + 4 * |ws|] == BytesOf(ws) && k < |ws|
    ensures Le32(b, at + 4 * k) == ws[k]
    decreases k
  {
    var c := b[at..at + 4 * |ws|];
    assert c[..4] == Bytes32(ws[0]) && c[4..] == BytesOf(ws[1..]);
    assert b[at..at + 4] == c[..4] && b[at + 4..at + 4 + 4 * |ws[1..]|] == c[4..];
    if k == 0 { Read32(b, at, ws[0]); } else { ReadWords(b, at + 4, ws[1..], k - 1); }
  }

  /** The sectors from lba on hold data. */
  ghost predicate Stored(d: Image, lba: nat, data: seq<u8>) {
    |data| % 512 == 0 && lba + |data| / 512 <= 0x1_0000_0000
    && forall i :: 0 <= i < |data| / 512 ==> SectorHolds(d, lba, data, i)
  }

  ghost predicate SectorHolds(d: Image, lba: nat, data: seq<u8>, i: nat)
    requires 512 * i + 512 <= |data| && lba + i < 0x1_0000_0000
  {
    d(lba + i).Some? && d(lba + i).value == data[512 * i..512 * i + 512]
  }

  /** Reading n sectors gives exactly the bytes that stand on them. */
  lemma {:induction false} StoredIsRead(d: Image, lba: u32, data: seq<u8>, n: nat)
    requires |data| == 512 * n && lba + n <= 0x1_0000_0000
    ensures Sectors(d, lba, n) == Some(data) <==> Stored(d, lba, data)
  {
    if n > 0 {
      var m, init := n - 1, data[..512 * (n - 1)];
      StoredIsRead(d, lba, init, m);
      assert data == init + data[512 * m..512 * m + 512];
      forall i | 0 <= i < m
        ensures SectorHolds(d, lba, data, i) <==> SectorHolds(d, lba, init, i)
      {
        assert data[512 * i..512 * i + 512] == init[512 * i..512 * i + 512];
      }
      LastSector(d, lba, data, n);
    }
  }

  lemma LastSector(d: Image, lba: u32, data: seq<u8>, n: nat)
    requires n > 0 && |data| == 512 * n && lba + n <= 0x1_0000_0000
    ensures Sectors(d, lba, n) == Some(data)
       <==> Sectors(d, lba, n - 1) == Some(data[..512 * (n - 1)]) && SectorHolds(d, lba, data, n - 1)
  {
    var a, b, m := Sectors(d, lba, n - 1), One(d, Wrap(lba + (n - 1))), 512 * (n - 1);
    assert Wrap(lba + (n - 1)) == lba + (n - 1);
    if a.Some? && b.Some? {
      assert (a.value + b.value)[..m] == a.value && (a.value + b.value)[m..] == b.value;
      assert data[m..] == data[m..m + 512];
      assert data == data[..m] + data[m..];
    }
  }

  lemma SliceOfSlice(s: seq<u8>, a: nat, b: nat, i: nat, j: nat)
    requires a <= b <= |s| && i <= j <= b - a
    ensures s[a..b][i..j] == s[a + i..a + j]
  {
    Sub(s, a, s[a..b], i, j);
  }

  /** A sequence cut into pieces of n. */
  lemma {:induction false} FlattenPieces(pieces: seq<seq<u8>>, n: nat, file: seq<u8>)
    requires n > 0 && |file| == |pieces| * n
    requires forall i :: 0 <= i < |pieces| ==> PieceOf(pieces, n, file, i)
    ensures Flatten(pieces) == file
  {
    if pieces != [] {
      var m := |pieces| - 1;
      assert |pieces| * n == m * n + n && m * n >= 0;
      assert PieceOf(pieces, n, file, m);
      forall i | 0 <= i < m
        ensures PieceOf(pieces[..m], n, file[..m * n], i)
      {
        assert PieceOf(pieces, n, file, i);
        RowsBelow(i + 1, m, n);
        assert (i + 1) * n == i * n + n;
      }
      FlattenPieces(pieces[..m], n, file[..m * n]);
      assert file == file[..m * n] + file[m * n..m * n + n];
    }
  }

  ghost predicate PieceOf(pieces: seq<seq<u8>>, n: nat, file: seq<u8>, i: nat)
    requires i < |pieces|
  {
    0 <= i * n && i * n + n <= |file| && pieces[i] == file[i * n..i * n + n]
  }

  lemma RowsBelow(a: nat, b: nat, n: nat)
    requires a <= b
    ensures a * n <= b * n
  {
    assert b * n == a * n + (b - a) * n;
  }
}
