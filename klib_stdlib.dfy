/**
 * abstract-machine's klib stdlib routines (klib/src/stdlib.c) on RV32, where
 * `unsigned long`, `size_t` and pointers are 32 bits wide: the linear
 * congruential `rand`, `abs`, `atoi`, and the bump allocator `malloc` with its
 * no-op `free`.
 */
module KlibStdlib {
  import opened Machine
  import opened KlibString

  // ---------------------------------------------------------------------------
  // rand / srand
  // ---------------------------------------------------------------------------

  /** RAND_MAX as the source assumes it. */
  const RandMax: int := 32767

  /** One step of the generator: next * 1103515245 + 12345 modulo 2^32. */
  function LcgStep(next: Word): (r: Word)
    ensures (r - (next * 1103515245 + 12345)) % WordMod == 0
  {
    (next * 1103515245 + 12345) % WordMod
  }

  /** What rand returns for a given new state: bits 16 to 30 of it. */
  function RandOutput(next: Word): (r: int)
    ensures 0 <= r <= RandMax
  {
    (next / 65536) % 32768
  }

  /** The first k outputs of rand once the state is `next`. */
  function RandStream(next: Word, k: nat): (outs: seq<int>)
    ensures |outs| == k
    ensures forall i :: 0 <= i < k ==> 0 <= outs[i] <= RandMax
    decreases k
  {
    if k == 0 then [] else [RandOutput(LcgStep(next))] + RandStream(LcgStep(next), k - 1)
  }

  /** The stream is built one step at a time: after one rand, the rest is the stream from the new state. */
  lemma RandStreamStep(next: Word, k: nat)
    requires k > 0
    ensures RandStream(next, k)[0] == RandOutput(LcgStep(next))
    ensures RandStream(next, k)[1..] == RandStream(LcgStep(next), k - 1)
  {
  }

  /** The static generator state `next`, initially 1. */
  class RandGen {
    var next: Word

    constructor ()
      ensures next == 1
    {
      next := 1;
    }

    /** rand: advance the state and return a value in [0, RAND_MAX]. */
    method Rand() returns (r: int)
      modifies this
      ensures next == LcgStep(old(next))
      ensures r == RandOutput(next) && 0 <= r <= RandMax
    {
      next := (next * 1103515245 + 12345) % WordMod;
      r := (next / 65536) % 32768;
    }

    /** srand: the state becomes the seed. */
    method Srand(seed: Word)
      modifies this
      ensures next == seed
    {
      next := seed;
    }

    /** srand(seed) then k calls of rand: the outputs depend on the seed alone. */
    method SeededOutputs(seed: Word, k: nat) returns (outs: seq<int>)
      modifies this
      ensures outs == RandStream(seed, k)
    {
      Srand(seed);
      outs := [];
      var i := 0;
      while i < k
        invariant 0 <= i <= k
        invariant |outs| == i
        invariant outs + RandStream(next, k - i) == RandStream(seed, k)
      {
        ghost var prev := next;
        RandStreamStep(prev, k - i);
        var r := Rand();
        assert RandStream(prev, k - i) == [r] + RandStream(next, k - i - 1);
        assert (outs + [r]) + RandStream(next, k - i - 1) == outs + RandStream(prev, k - i);
        outs := outs + [r];
        i := i + 1;
      }
    }
  }

  // ---------------------------------------------------------------------------
  // abs
  // ---------------------------------------------------------------------------

  /** C `int` on this target. */
  type Int32 = x: int | -0x8000_0000 <= x < 0x8000_0000

  /** abs: the magnitude; -INT_MIN does not fit an int, which C leaves undefined. */
  function Abs(x: Int32): (r: Int32)
    requires x != -0x8000_0000
    ensures r >= 0 && (r == x || r == -x)
    ensures x >= 0 ==> r == x
  {
    if x < 0 then -x else x
  }

  // ---------------------------------------------------------------------------
  // atoi
  // ---------------------------------------------------------------------------

  const Space: Byte := 32
  const Zero: Byte := 48
  const Nine: Byte := 57

  predicate IsDigit(b: Byte)
  {
    Zero <= b <= Nine
  }

  /** The number of leading ' ' bytes. */
  function LeadingSpaces(s: seq<Byte>): (n: nat)
    ensures n <= |s| && forall i :: 0 <= i < n ==> s[i] == Space
    ensures n < |s| ==> s[n] != Space
  {
    if |s| > 0 && s[0] == Space then 1 + LeadingSpaces(s[1..]) else 0
  }

  /** The length of the leading run of decimal digits. */
  function DigitRun(s: seq<Byte>): (n: nat)
    ensures n <= |s| && forall i :: 0 <= i < n ==> IsDigit(s[i])
    ensures n < |s| ==> !IsDigit(s[n])
  {
    if |s| > 0 && IsDigit(s[0]) then 1 + DigitRun(s[1..]) else 0
  }

  /** Appending a digit: the accumulation step x = x * 10 + (c - '0'). */
  lemma DecValueSnoc(d: seq<Byte>, c: Byte)
    requires IsDigit(c) && forall i :: 0 <= i < |d| ==> IsDigit(d[i])
    ensures forall i :: 0 <= i < |d + [c]| ==> IsDigit((d + [c])[i])
    ensures DecValue(d + [c]) == DecValue(d) * 10 + (c - Zero)
  {
    assert (d + [c])[..|d|] == d;
  }

  /** A run of n digits followed by a non-digit has length n. */
  lemma {:induction false} DigitRunIs(s: seq<Byte>, n: nat)
    requires n < |s| && !IsDigit(s[n]) && forall i :: 0 <= i < n ==> IsDigit(s[i])
    ensures DigitRun(s) == n
    decreases n
  {
    if n > 0 {
      DigitRunIs(s[1..], n - 1);
    }
  }

  /** The value of a run of decimal digits, most significant first. */
  function DecValue(d: seq<Byte>): (v: nat)
    requires forall i :: 0 <= i < |d| ==> IsDigit(d[i])
  {
    if |d| == 0 then 0
    else
      assert IsDigit(d[|d| - 1]);
      DecValue(d[..|d| - 1]) * 10 + (d[|d| - 1] - Zero)
  }

  /** What atoi computes: skip spaces, then read decimal digits; no sign is recognised. */
  function AtoiValue(s: seq<Byte>): nat
  {
    var t := s[LeadingSpaces(s)..];
    DecValue(t[..DigitRun(t)])
  }

  /** The first loop of atoi: step over the ' ' bytes. */
  method SkipSpaces(nptr: array<Byte>) returns (i: nat)
    requires HasNul(nptr[..])
    ensures i == LeadingSpaces(nptr[..]) && i <= CLen(nptr[..])
  {
    ghost var s := nptr[..];
    i := 0;
    while nptr[i] == Space
      invariant i <= CLen(s) && i + LeadingSpaces(s[i..]) == LeadingSpaces(s)
      decreases CLen(s) - i
    {
      assert s[i..][1..] == s[i + 1..];
      i := i + 1;
    }
  }

  /** The second loop of atoi: accumulate the digits that start at nptr[i]. */
  method ReadDigits(nptr: array<Byte>, i: nat) returns (x: int)
    requires HasNul(nptr[..]) && i <= CLen(nptr[..])
    ensures var t := nptr[i..]; x == DecValue(t[..DigitRun(t)])
  {
    ghost var s := nptr[..];
    ghost var t := nptr[i..];
    x := 0;
    var j := 0;
    while Zero <= nptr[i + j] <= Nine
      invariant i + j <= CLen(s) && j <= DigitRun(t)
      invariant x == DecValue(t[..j])
      decreases CLen(s) - (i + j)
    {
      assert t[j] == nptr[i + j] && j < DigitRun(t);
      ghost var u := t[..j + 1];
      assert u[..j] == t[..j] && u[j] == t[j];
      assert DecValue(u) == DecValue(t[..j]) * 10 + (nptr[i + j] - Zero);
      x := x * 10 + nptr[i + j] - Zero;
      j := j + 1;
    }
    assert !IsDigit(t[j]);
  }

  /** atoi: skip ' ' only (no other white space), then accumulate digits up to the first non-digit. */
  method Atoi(nptr: array<Byte>) returns (x: int)
    requires HasNul(nptr[..])
    ensures x == AtoiValue(nptr[..])
  {
    var i := SkipSpaces(nptr);
    assert nptr[..][i..] == nptr[i..];
    x := ReadDigits(nptr, i);
  }

  /** atoi has no sign: "-5" reads as 0. */
  lemma AtoiIgnoresSign()
    ensures AtoiValue([45, 53, 0]) == 0
  {
    assert LeadingSpaces([45, 53, 0]) == 0;
  }

  // ---------------------------------------------------------------------------
  // malloc / free
  // ---------------------------------------------------------------------------

  /** ROUNDUP(x, 8) in unbounded arithmetic. */
  function RoundUp8(x: nat): (r: nat)
    ensures r % 8 == 0 && x <= r < x + 8
  {
    (x + 7) / 8 * 8
  }

  /** ROUNDDOWN(x, 8). */
  function RoundDown8(x: nat): (r: nat)
    ensures r % 8 == 0 && x - 8 < r <= x
  {
    x / 8 * 8
  }

  /** One block handed out by malloc. */
  datatype Block = Block(addr: nat, size: nat)

  function End(b: Block): nat
  {
    b.addr + b.size
  }

  /** The blocks exactly tile [base, top), in order, each 8-byte aligned and a multiple of 8 long. */
  ghost predicate Tiles(blocks: seq<Block>, base: nat, top: nat)
  {
    (|blocks| == 0 ==> top == base) &&
    (|blocks| > 0 ==> blocks[0].addr == base && End(blocks[|blocks| - 1]) == top) &&
    (forall i :: 0 <= i < |blocks| - 1 ==> End(blocks[i]) == blocks[i + 1].addr) &&
    (forall i :: 0 <= i < |blocks| ==> blocks[i].addr % 8 == 0 && blocks[i].size % 8 == 0)
  }

  /** Successive blocks never overlap: each ends before any later one starts. */
  lemma {:induction false} TilesDisjoint(blocks: seq<Block>, base: nat, top: nat, i: int, j: int)
    requires Tiles(blocks, base, top) && 0 <= i < j < |blocks|
    ensures End(blocks[i]) <= blocks[j].addr
    decreases j - i
  {
    if j > i + 1 {
      TilesDisjoint(blocks, base, top, i, j - 1);
      assert End(blocks[j - 1]) == blocks[j].addr;
    }
  }

  /** Every block lies in [base, top). */
  lemma {:induction false} TilesWithin(blocks: seq<Block>, base: nat, top: nat, i: int)
    requires Tiles(blocks, base, top) && 0 <= i < |blocks|
    ensures base <= blocks[i].addr && End(blocks[i]) <= top
  {
    if i > 0 {
      TilesDisjoint(blocks, base, top, 0, i);
    }
    if i < |blocks| - 1 {
      TilesDisjoint(blocks, base, top, i, |blocks| - 1);
    }
  }

  /** Appending the block [top, top + size) keeps the tiling. */
  lemma TilesAppend(blocks: seq<Block>, base: nat, top: nat, size: nat)
    requires Tiles(blocks, base, top) && top % 8 == 0 && size % 8 == 0
    ensures Tiles(blocks + [Block(top, size)], base, top + size)
  {
  }

  /**
   * The allocator's statics `hbrk` and `mlim` over the AM heap Area
   * [heapStart, heapEnd), with memory as one array indexed by address. `hbrk`
   * is 0 until the first call initialises it; `halted` records a failed assert,
   * after which nothing runs.
   */
  class Heap {
    const heapStart: Word
    const heapEnd: Word
    const mem: array<Byte>
    var hbrk: Word
    var mlim: int
    var halted: bool
    /** The blocks returned so far, in order. */
    ghost var blocks: seq<Block>

    ghost predicate Valid()
      reads this
    {
      mem.Length == WordMod && 0 < heapStart <= heapEnd && heapStart <= 0xFFFF_FFF8 &&
      (hbrk == 0 ==> blocks == []) &&
      (hbrk != 0 ==> mlim == RoundDown8(heapEnd) - RoundUp8(heapStart) &&
                     Tiles(blocks, RoundUp8(heapStart), hbrk))
    }

    constructor (heapStart: Word, heapEnd: Word, mem: array<Byte>)
      requires mem.Length == WordMod && 0 < heapStart <= heapEnd && heapStart <= 0xFFFF_FFF8
      ensures Valid() && !halted && blocks == [] && hbrk == 0
      ensures this.heapStart == heapStart && this.heapEnd == heapEnd && this.mem == mem
    {
      this.heapStart, this.heapEnd, this.mem := heapStart, heapEnd, mem;
      hbrk, mlim, halted := 0, 0, false;
      blocks := [];
    }

    /** The break malloc starts from: the current one, or the aligned heap start on the first call. */
    function Base(): (b: nat)
      reads this
      requires Valid()
      ensures b % 8 == 0 && heapStart <= b
    {
      if hbrk == 0 then RoundUp8(heapStart) else assert Tiles(blocks, RoundUp8(heapStart), hbrk); TopAligned(blocks, RoundUp8(heapStart), hbrk); hbrk
    }

    /** The two asserts of malloc, in unbounded arithmetic: the new break lies in the heap and within mlim. */
    predicate Fits(size: Word)
      reads this
      requires Valid()
    {
      var top := Base() + RoundUp8(size);
      heapStart <= top < heapEnd && top - heapStart <= RoundDown8(heapEnd) - RoundUp8(heapStart)
    }

    /**
     * malloc, with the size rounding and the break addition done without
     * wrap-around: return the old break, advance the break by size rounded up
     * to 8, and zero the block; when the break would leave the heap, the
     * assert fails and the machine halts. The as-written 32-bit arithmetic is
     * `MallocBreakAsWritten`.
     */
    method Malloc(size: Word) returns (p: Option<Word>)
      requires Valid() && !halted
      modifies this, mem
      ensures p.Some? <==> old(Fits(size))
      ensures p.None? ==> halted
      ensures p.Some? ==> Valid() && !halted && p.value == old(Base()) &&
                          hbrk == p.value + RoundUp8(size) &&
                          blocks == old(blocks) + [Block(p.value, RoundUp8(size))]
      ensures p.Some? ==> p.value + size <= hbrk < p.value + size + 8
      ensures p.Some? ==> forall i :: 0 <= i < |old(blocks)| ==> End(old(blocks)[i]) <= p.value
      ensures p.Some? ==> forall k :: p.value <= k < hbrk ==> mem[k] == 0
      ensures p.Some? ==> forall k :: 0 <= k < mem.Length && !(p.value <= k < hbrk) ==> mem[k] == old(mem[k])
    {
      if hbrk == 0 {
        hbrk := RoundUp8(heapStart);
        mlim := RoundDown8(heapEnd) - hbrk;
      }
      assert Tiles(blocks, RoundUp8(heapStart), hbrk);
      var sz := RoundUp8(size);
      var base := hbrk;
      var top := base + sz;
      if !(heapStart <= top < heapEnd) {
        halted := true;
        return None;
      }
      TopAligned(blocks, RoundUp8(heapStart), base);
      TilesAppend(blocks, RoundUp8(heapStart), base, sz);
      hbrk := top;
      ZeroRange(base, top);
      if !(hbrk - heapStart <= mlim) {
        halted := true;
        return None;
      }
      forall i | 0 <= i < |blocks|
        ensures End(blocks[i]) <= base
      {
        TilesWithin(blocks, RoundUp8(heapStart), base, i);
      }
      blocks := blocks + [Block(base, sz)];
      p := Some(base);
    }

    /** The bzero loop of malloc: 8 bytes (one uint64_t) per step from lo up to hi. */
    method ZeroRange(lo: nat, hi: nat)
      requires lo <= hi <= mem.Length && (hi - lo) % 8 == 0
      modifies mem
      ensures forall k :: lo <= k < hi ==> mem[k] == 0
      ensures forall k :: 0 <= k < mem.Length && !(lo <= k < hi) ==> mem[k] == old(mem[k])
    {
      var q := lo;
      while q != hi
        invariant lo <= q <= hi && (hi - q) % 8 == 0
        invariant forall k :: lo <= k < q ==> mem[k] == 0
        invariant forall k :: 0 <= k < mem.Length && !(lo <= k < q) ==> mem[k] == old(mem[k])
        decreases hi - q
      {
        forall k | q <= k < q + 8 {
          mem[k] := 0;
        }
        q := q + 8;
      }
    }

    /** free: releases nothing and changes nothing. */
    method Free(ptr: Word)
      ensures unchanged(this) && unchanged(mem)
    {
    }
  }

  /** The end of a tiling starting at an aligned base is aligned. */
  lemma TopAligned(blocks: seq<Block>, base: nat, top: nat)
    requires Tiles(blocks, base, top) && base % 8 == 0
    ensures top % 8 == 0 && base <= top
  {
    if |blocks| > 0 {
      TilesWithin(blocks, base, top, |blocks| - 1);
    }
  }

  /** ROUNDUP(size, 8) as written: in 32-bit uintptr_t arithmetic. */
  function RoundUp8AsWritten(size: Word): Word
  {
    var t := Wrap(size + 7);
    t - t % 8
  }

  /** The break after `hbrk += size` as written: 32-bit pointer arithmetic. */
  function MallocBreakAsWritten(hbrk: Word, size: Word): Word
  {
    Wrap(hbrk + RoundUp8AsWritten(size))
  }

  /** malloc's first bounds assert, on the as-written break. */
  predicate FirstAssertAsWritten(heapStart: Word, heapEnd: Word, brk: Word)
  {
    heapStart <= brk < heapEnd
  }

  /**
   * As written, a request of 2^32 - 1 bytes rounds to 0, and one of
   * 2^32 - 16 bytes moves the break backwards; both breaks pass the first
   * bounds assert. The first request returns an empty block at the old break.
   * For the second, the bzero loop starts at the old break and steps upward,
   * sweeping through the wrap-around of the address space, zeroing memory
   * outside the heap, until it meets the new, lower break.
   */
  lemma MallocAsWrittenCounterexample()
    ensures RoundUp8AsWritten(0xFFFF_FFFF) == 0
    ensures MallocBreakAsWritten(0x8000_0100, 0xFFFF_FFFF) == 0x8000_0100
    ensures FirstAssertAsWritten(0x8000_0000, 0x8800_0000, MallocBreakAsWritten(0x8000_0100, 0xFFFF_FFFF))
    ensures MallocBreakAsWritten(0x8000_0100, 0xFFFF_FFF0) == 0x8000_00F0
    ensures FirstAssertAsWritten(0x8000_0000, 0x8800_0000, MallocBreakAsWritten(0x8000_0100, 0xFFFF_FFF0))
  {
  }
}
