/** Machine-level types shared by the emulator model (RV32 configuration). */
module Machine {
  /** 2^32: the width of word_t, vaddr_t, paddr_t, size_t and unsigned long on RV32. */
  const WordMod: int := 0x1_0000_0000

  /** word_t, vaddr_t and paddr_t: unsigned 32-bit machine words. */
  type Word = x: int | 0 <= x < 0x1_0000_0000

  /** The signed view of a word, as a `(sword_t)` cast gives it. */
  function Signed(w: Word): (r: int)
    ensures -0x8000_0000 <= r < 0x8000_0000
    ensures (r - w) % WordMod == 0
    ensures r < 0 <==> w >= 0x8000_0000
  {
    if w < 0x8000_0000 then w else w - WordMod
  }

  /** Reduction of an integer to a word, as C unsigned arithmetic does. */
  function Wrap(x: int): (r: Word)
    ensures (r - x) % WordMod == 0
  {
    x % WordMod
  }

  function Min(a: int, b: int): int { if a <= b then a else b }

  /** A value that may be absent: a NULL pointer, a missing table entry. */
  datatype Option<T> = None | Some(value: T)

  /** An unsigned byte, as `uint8_t` and RISC-V's (unsigned) `char` hold it. */
  type Byte = x: int | 0 <= x < 256

  /** Euclidean remainder facts for small quotients, used by the ring-buffer proofs. */
  lemma ModBelowTwice(v: int, n: int)
    requires 0 < n && 0 <= v < 2 * n
    ensures v % n == if v < n then v else v - n
  {
    if v < n {
      assert v == 0 * n + v;
    } else {
      assert v == 1 * n + (v - n);
    }
  }
}
