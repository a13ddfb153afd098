/** Word-addressed kernel memory, for data structures that keep their links inside the memory they manage. */
module RawMemory {

  type Memory = map<int, int>

  function Load(m: Memory, a: int): int {
    if a in m then m[a] else 0
  }

  /** Only words in [lo, hi) changed. */
  ghost predicate WritesOnly(m: Memory, m': Memory, lo: int, hi: int) {
    forall a :: a < lo || hi <= a ==> Load(m', a) == Load(m, a)
  }

  /** The n bytes at src in the old memory are the n bytes at dst in the new one. */
  ghost predicate Copied(m: Memory, m': Memory, src: int, dst: int, n: int) {
    forall a :: 0 <= a < n && a % 4 == 0 ==> Load(m', dst + a) == Load(m, src + a)
  }

  ghost predicate Zeroes(m: Memory, p: int, n: int) {
    forall a :: 0 <= a < n && a % 4 == 0 ==> Load(m, p + a) == 0
  }

  /** The first n bytes at p are zero. */
  ghost predicate Wiped(m: Memory, p: int, n: int) {
    Zeroes(m, p, n - n % 4) && (n % 4 > 0 ==> LowZero(Load(m, p + n - n % 4), n % 4))
  }

  /** The first n bytes of a little-endian word are zero. */
  predicate LowZero(w: int, n: int) {
    w % (if n == 1 then 0x100 else if n == 2 then 0x1_0000 else if n == 3 then 0x100_0000 else 1) == 0
  }

  lemma ClearLowIsZero(w: int, n: int)
    requires 0 < n < 4
    ensures LowZero(ClearLow(w, n), n)
  {
    RoundedDown(w, if n == 1 then 0x100 else if n == 2 then 0x1_0000 else 0x100_0000);
  }

  lemma RoundedDown(w: int, m: int)
    requires m == 0x100 || m == 0x1_0000 || m == 0x100_0000
    ensures (w - w % m) % m == 0
  {
    var q := w / m;
    assert w - w % m == m * q;
  }

  /** A little-endian word whose first n bytes are cleared. */
  function ClearLow(w: int, n: int): int {
    if n == 1 then w - w % 0x100 else if n == 2 then w - w % 0x1_0000 else if n == 3 then w - w % 0x100_0000 else w
  }
}
