/**
 Fixed-width machine words of the 32-bit kernel, as bounded integers.

 Every wrap-around of the C code is written out with Wrap; every mask, shift and
 single-bit operation has its arithmetic meaning here and nowhere else.
 */
module Words {

  type u8 = x: int | 0 <= x < 256
  type u16 = x: int | 0 <= x < 0x1_0000
  type u32 = x: int | 0 <= x < 0x1_0000_0000

  /** The value a 32-bit unsigned expression keeps of a mathematical integer. */
  function Wrap(x: int): u32 {
    x % 0x1_0000_0000
  }

  lemma WrapBelow(x: int)
    requires 0 <= x < 0x1_0000_0000
    ensures Wrap(x) == x
  {
  }

  lemma WrapAtMost(x: nat)
    ensures Wrap(x) <= x
  {
  }

  /** ALIGN_DOWN(x, 4096) and x & PAGE_MASK. */
  function PageDown(x: u32): u32 {
    x - x % 4096
  }

  /** ALIGN_UP(x, 4096) evaluated in 32 bits: the addition wraps before the mask. */
  function PageUp(x: u32): u32 {
    PageDown(Wrap(x + 4095))
  }

  /** ADDR_TO_PFN */
  function Pfn(addr: int): int {
    addr / 4096
  }

  /** PFN_TO_ADDR, for frames whose address fits 32 bits. */
  function FrameAddr(pfn: int): int {
    pfn * 4096
  }

  lemma FrameOfAddress(pfn: nat)
    requires pfn < 0x10_0000
    ensures 0 <= FrameAddr(pfn) < 0x1_0000_0000 && FrameAddr(pfn) % 4096 == 0 && Pfn(FrameAddr(pfn)) == pfn
    ensures FrameAddr(pfn) == 0 <==> pfn == 0
  {
  }

  lemma AddressOfFrame(addr: u32)
    requires addr % 4096 == 0
    ensures PageDown(addr) == addr == FrameAddr(Pfn(addr))
  {
  }

  datatype Option<+T> = None | Some(value: T)

  function Min(a: int, b: int): int {
    if a < b then a else b
  }

  function Pow2(k: nat): (p: nat)
    ensures p >= 1
  {
    if k == 0 then 1 else 2 * Pow2(k - 1)
  }

  /** (w >> i) & 1 */
  predicate Bit(w: nat, i: nat) {
    if i == 0 then w % 2 == 1 else Bit(w / 2, i - 1)
  }

  /** w | (1 << i) */
  function SetBit(w: nat, i: nat): nat {
    if i == 0 then (if w % 2 == 1 then w else w + 1) else 2 * SetBit(w / 2, i - 1) + w % 2
  }

  /** w & ~(1 << i) */
  function ClearBit(w: nat, i: nat): nat {
    if i == 0 then w - w % 2 else 2 * ClearBit(w / 2, i - 1) + w % 2
  }

  lemma {:induction false} SetBitWidth(w: nat, i: nat, k: nat)
    requires w < Pow2(k) && i < k
    ensures SetBit(w, i) < Pow2(k)
  {
    var half := Pow2(k - 1);
    BelowDouble(w, half);
    if i > 0 {
      SetBitWidth(w / 2, i - 1, k - 1);
      DoubleBelow(SetBit(w / 2, i - 1), w % 2, half);
    } else {
      DoubleBelow(w / 2, 1, half);
    }
  }

  lemma BelowDouble(w: nat, half: nat)
    requires w < 2 * half
    ensures w / 2 < half && w == 2 * (w / 2) + w % 2
  {
  }

  lemma DoubleBelow(x: nat, r: nat, half: nat)
    requires x < half && r < 2
    ensures 2 * x + r < 2 * half
  {
  }

  lemma {:induction false} SetBitAt(w: nat, i: nat, j: nat)
    ensures Bit(SetBit(w, i), j) == (j == i || Bit(w, j))
  {
    assert SetBit(w, i) / 2 == if i == 0 then w / 2 else SetBit(w / 2, i - 1);
    if i > 0 && j > 0 { SetBitAt(w / 2, i - 1, j - 1); }
  }

  /** Setting bit i turns that bit on and leaves every other bit, and the width, alone. */
  lemma SetBitSpec(w: nat, i: nat, k: nat)
    requires w < Pow2(k) && i < k
    ensures SetBit(w, i) < Pow2(k)
    ensures forall j: nat :: Bit(SetBit(w, i), j) == (j == i || Bit(w, j))
  {
    SetBitWidth(w, i, k);
    forall j: nat
      ensures Bit(SetBit(w, i), j) == (j == i || Bit(w, j))
    {
      SetBitAt(w, i, j);
    }
  }

  /** Clearing bit i turns that bit off and leaves every other bit alone. */
  lemma {:induction false} ClearBitSpec(w: nat, i: nat)
    ensures ClearBit(w, i) <= w
    ensures forall j: nat :: Bit(ClearBit(w, i), j) == (j != i && Bit(w, j))
  {
    if i > 0 {
      ClearBitSpec(w / 2, i - 1);
    }
    forall j: nat
      ensures Bit(ClearBit(w, i), j) == (j != i && Bit(w, j))
    {
      if j > 0 {
        assert ClearBit(w, i) / 2 == if i == 0 then w / 2 else ClearBit(w / 2, i - 1);
      }
    }
  }

  lemma Pow2At32()
    ensures Pow2(8) == 256 && Pow2(32) == 0x1_0000_0000
  {
    assert Pow2(8) == 256;
    assert Pow2(16) == 65536;
    assert Pow2(24) == 0x100_0000;
  }

  /** No bit of an empty word is set. */
  lemma {:induction false} ZeroHasNoBits(j: nat)
    ensures !Bit(0, j)
  {
    if j > 0 {
      ZeroHasNoBits(j - 1);
    }
  }
}
