/**
 * The reference model of the lab 6 eight-bit LFSR testbench
 * (digital/lab6/csrc/lfsr_tb.cpp): each clock shifts the state right by one
 * and feeds q4 ^ q3 ^ q2 ^ q0 into bit 7. Reset loads 0x01, and the test
 * expects the sequence never to reach 0 and to run through all 255 non-zero
 * states before it repeats.
 */
module Lfsr {
  /** model_next: the new bit 7 is the XOR of bits 4, 3, 2 and 0; the rest is q >> 1. */
  function ModelNext(q: bv8): bv8
  {
    var x8 := ((q >> 4) & 1) ^ ((q >> 3) & 1) ^ ((q >> 2) & 1) ^ (q & 1);
    (x8 << 7) | (q >> 1)
  }

  /** Bit i of a state. */
  function Bit(q: bv8, i: nat): bv8
    requires i < 8
  {
    (q >> i) & 1
  }

  /** One step is a shift register: bits 7..1 move down one place and bit 7 takes the feedback. */
  lemma ShiftRegister(q: bv8)
    ensures forall i :: 0 <= i < 7 ==> Bit(ModelNext(q), i) == Bit(q, i + 1)
    ensures Bit(ModelNext(q), 7) == Bit(q, 4) ^ Bit(q, 3) ^ Bit(q, 2) ^ Bit(q, 0)
  {
    var n := ModelNext(q);
    assert Bit(n, 0) == Bit(q, 1) && Bit(n, 1) == Bit(q, 2) && Bit(n, 2) == Bit(q, 3);
    assert Bit(n, 3) == Bit(q, 4) && Bit(n, 4) == Bit(q, 5) && Bit(n, 5) == Bit(q, 6);
    assert Bit(n, 6) == Bit(q, 7);
  }

  /** The all-zero state is a fixed point: the LFSR must never enter it. */
  lemma ZeroIsStuck()
    ensures ModelNext(0) == 0
  {
  }

  /** A non-zero state steps to a non-zero state, as the test checks on every cycle. */
  lemma NonZeroStays(q: bv8)
    requires q != 0
    ensures ModelNext(q) != 0
  {
  }

  /** The state after n clocks from q. */
  function Iterate(q: bv8, n: nat): bv8
    decreases n
  {
    if n == 0 then q else Iterate(ModelNext(q), n - 1)
  }

  /** From a non-zero state the LFSR never reaches 0. */
  lemma {:induction false} NeverZero(q: bv8, n: nat)
    requires q != 0
    ensures Iterate(q, n) != 0
    decreases n
  {
    if n > 0 {
      NonZeroStays(q);
      NeverZero(ModelNext(q), n - 1);
    }
  }

  /** Running m clocks and then n more is running m + n clocks. */
  lemma {:induction false} IterateAdd(q: bv8, m: nat, n: nat)
    ensures Iterate(q, m + n) == Iterate(Iterate(q, m), n)
    decreases m
  {
    if m > 0 {
      IterateAdd(ModelNext(q), m - 1, n);
    }
  }

  /** Eight clocks, written out. */
  function Next8(q: bv8): bv8
  {
    ModelNext(ModelNext(ModelNext(ModelNext(ModelNext(ModelNext(ModelNext(ModelNext(q))))))))
  }

  /** The first of the next eight states (q itself first) equal to s, or 8 if none is. */
  function FirstHit8(s: bv8, q: bv8): (r: nat)
    ensures r <= 8
  {
    var q1 := ModelNext(q);
    var q2 := ModelNext(q1);
    var q3 := ModelNext(q2);
    var q4 := ModelNext(q3);
    var q5 := ModelNext(q4);
    var q6 := ModelNext(q5);
    var q7 := ModelNext(q6);
    if q == s then 0 else if q1 == s then 1 else if q2 == s then 2 else if q3 == s then 3
    else if q4 == s then 4 else if q5 == s then 5 else if q6 == s then 6 else if q7 == s then 7
    else 8
  }

  /** Next8 is eight clocks, and FirstHit8 is the first of them to reach s. */
  lemma Window8(s: bv8, q: bv8)
    ensures Iterate(q, 8) == Next8(q)
    ensures forall r :: 0 <= r < FirstHit8(s, q) ==> Iterate(q, r) != s
    ensures FirstHit8(s, q) < 8 ==> Iterate(q, FirstHit8(s, q)) == s
  {
    var q1 := ModelNext(q);
    var q2 := ModelNext(q1);
    var q3 := ModelNext(q2);
    var q4 := ModelNext(q3);
    assert Iterate(q, 1) == q1 && Iterate(q1, 1) == q2 && Iterate(q2, 1) == q3;
    assert Iterate(q, 8) == Iterate(q1, 7) == Iterate(q2, 6) == Iterate(q3, 5) == Iterate(q4, 4);
  }

  /** If n clocks from q reach b, the next eight states are those of the window at b. */
  lemma Advance(q: bv8, n: nat, b: bv8)
    requires Iterate(q, n) == b
    ensures Iterate(q, n + 8) == Next8(b)
    ensures forall r :: n <= r < n + FirstHit8(q, b) ==> Iterate(q, r) != q
    ensures FirstHit8(q, b) < 8 ==> Iterate(q, n + FirstHit8(q, b)) == q
  {
    IterateAdd(q, n, 8);
    Window8(q, b);
    forall r | n <= r < n + 8
      ensures Iterate(q, r) == Iterate(b, r - n)
    {
      IterateAdd(q, n, r - n);
    }
  }

  /** The value the test expects right after reset. */
  const Reset: bv8 := 0x01

  /** The orbit of the reset value, eight clocks at a time from clock 1. */
  lemma Orbit()
    ensures Next8(0x80) == 0x38 && FirstHit8(Reset, 0x80) == 8
    ensures Next8(0x38) == 0xd2 && FirstHit8(Reset, 0x38) == 8
    ensures Next8(0xd2) == 0x81 && FirstHit8(Reset, 0xd2) == 8
    ensures Next8(0x81) == 0x49 && FirstHit8(Reset, 0x81) == 8
    ensures Next8(0x49) == 0x76 && FirstHit8(Reset, 0x49) == 8
    ensures Next8(0x76) == 0x82 && FirstHit8(Reset, 0x76) == 8
    ensures Next8(0x82) == 0xda && FirstHit8(Reset, 0x82) == 8
    ensures Next8(0xda) == 0x9a && FirstHit8(Reset, 0xda) == 8
    ensures Next8(0x9a) == 0x86 && FirstHit8(Reset, 0x9a) == 8
    ensures Next8(0x86) == 0x6f && FirstHit8(Reset, 0x86) == 8
    ensures Next8(0x6f) == 0xaf && FirstHit8(Reset, 0x6f) == 8
    ensures Next8(0xaf) == 0x8b && FirstHit8(Reset, 0xaf) == 8
    ensures Next8(0x8b) == 0xb0 && FirstHit8(Reset, 0x8b) == 8
    ensures Next8(0xb0) == 0xf1 && FirstHit8(Reset, 0xb0) == 8
    ensures Next8(0xf1) == 0x9c && FirstHit8(Reset, 0xf1) == 8
    ensures Next8(0x9c) == 0xd1 && FirstHit8(Reset, 0x9c) == 8
    ensures Next8(0xd1) == 0x12 && FirstHit8(Reset, 0xd1) == 8
    ensures Next8(0x12) == 0xa5 && FirstHit8(Reset, 0x12) == 8
    ensures Next8(0xa5) == 0x72 && FirstHit8(Reset, 0xa5) == 8
    ensures Next8(0x72) == 0x37 && FirstHit8(Reset, 0x72) == 8
    ensures Next8(0x37) == 0xef && FirstHit8(Reset, 0x37) == 8
    ensures Next8(0xef) == 0x97 && FirstHit8(Reset, 0xef) == 8
    ensures Next8(0x97) == 0x59 && FirstHit8(Reset, 0x97) == 8
    ensures Next8(0x59) == 0x31 && FirstHit8(Reset, 0x59) == 8
    ensures Next8(0x31) == 0xb8 && FirstHit8(Reset, 0x31) == 8
    ensures Next8(0xb8) == 0xea && FirstHit8(Reset, 0xb8) == 8
    ensures Next8(0xea) == 0x53 && FirstHit8(Reset, 0xea) == 8
    ensures Next8(0x53) == 0xc8 && FirstHit8(Reset, 0x53) == 8
    ensures Next8(0xc8) == 0x3f && FirstHit8(Reset, 0xc8) == 8
    ensures Next8(0x3f) == 0xf4 && FirstHit8(Reset, 0x3f) == 8
    ensures Next8(0xf4) == 0x58 && FirstHit8(Reset, 0xf4) == 8
    ensures FirstHit8(Reset, 0x58) == 6
  {
  }

  /** Clocks 1 to 128 from reset avoid 0x01, and clock 129 reaches 0xd1. */
  lemma PeriodFirstHalf()
    ensures Iterate(Reset, 129) == 0xd1
    ensures forall j :: 0 < j < 129 ==> Iterate(Reset, j) != Reset
  {
    Orbit();
    assert Iterate(Reset, 1) == 0x80;
    Advance(Reset, 1, 0x80);
    Advance(Reset, 9, 0x38);
    Advance(Reset, 17, 0xd2);
    Advance(Reset, 25, 0x81);
    Advance(Reset, 33, 0x49);
    Advance(Reset, 41, 0x76);
    Advance(Reset, 49, 0x82);
    Advance(Reset, 57, 0xda);
    Advance(Reset, 65, 0x9a);
    Advance(Reset, 73, 0x86);
    Advance(Reset, 81, 0x6f);
    Advance(Reset, 89, 0xaf);
    Advance(Reset, 97, 0x8b);
    Advance(Reset, 105, 0xb0);
    Advance(Reset, 113, 0xf1);
    Advance(Reset, 121, 0x9c);
  }

  /** From the reset value 0x01 the state first returns to 0x01 after exactly 255 clocks. */
  lemma Period()
    ensures Iterate(Reset, 255) == Reset
    ensures forall j :: 0 < j < 255 ==> Iterate(Reset, j) != Reset
  {
    Orbit();
    PeriodFirstHalf();
    Advance(Reset, 129, 0xd1);
    Advance(Reset, 137, 0x12);
    Advance(Reset, 145, 0xa5);
    Advance(Reset, 153, 0x72);
    Advance(Reset, 161, 0x37);
    Advance(Reset, 169, 0xef);
    Advance(Reset, 177, 0x97);
    Advance(Reset, 185, 0x59);
    Advance(Reset, 193, 0x31);
    Advance(Reset, 201, 0xb8);
    Advance(Reset, 209, 0xea);
    Advance(Reset, 217, 0x53);
    Advance(Reset, 225, 0xc8);
    Advance(Reset, 233, 0x3f);
    Advance(Reset, 241, 0xf4);
    Advance(Reset, 249, 0x58);
  }

  /** The 255 states from reset are pairwise distinct and non-zero: every non-zero state occurs once. */
  lemma DistinctStates(i: nat, j: nat)
    requires i < j < 255
    ensures Iterate(Reset, i) != Iterate(Reset, j) && Iterate(Reset, i) != 0
  {
    NeverZero(Reset, i);
    Period();
    if Iterate(Reset, i) == Iterate(Reset, j) {
      IterateAdd(Reset, j, 255 - j);
      IterateAdd(Reset, i, 255 - j);
      assert Iterate(Reset, i + 255 - j) == Reset;
      assert false;
    }
  }
}
