/**
 * The golden model of the lab 3 four-bit ALU testbench (digital/lab3/csrc/alu_tb.cpp):
 * `sat4` reads the low four bits of an int as a signed value in [-8, 7], and
 * `model_eval` computes the expected result `y`, overflow flag `of` and zero
 * flag `zf` of an opcode on two operands. C `int` arithmetic is two's
 * complement, so `v & 0xF` is the Euclidean `v % 16` and `~a` is `-a - 1`.
 */
module Alu {
  /** The expected outputs of one ALU operation; the flags are 0 or 1. */
  datatype Expect = Expect(y: int, of: int, zf: int)

  /** The low four bits of an int, as a bit pattern. */
  function Low4(v: int): bv4
  {
    (v % 16) as bv4
  }

  /** sat4: keep the low four bits and read them as a signed number. */
  function Sat4(v: int): (r: int)
    ensures -8 <= r <= 7 && (r - v) % 16 == 0
  {
    var u := v % 16;
    if u >= 8 then u - 16 else u
  }

  /** Each four-bit pattern is the image of exactly one value in [-8, 7]. */
  lemma Sat4Unique(v: int, w: int)
    ensures Sat4(v) == Sat4(w) <==> v % 16 == w % 16
    ensures -8 <= v <= 7 ==> Sat4(v) == v
  {
  }

  /** sat4 is idempotent. */
  lemma Sat4Idempotent(v: int)
    ensures Sat4(Sat4(v)) == Sat4(v)
  {
    Sat4Unique(Sat4(v), v);
  }

  /** sat4 keeps the bit pattern of its argument. */
  lemma Sat4Low4(v: int)
    ensures Low4(Sat4(v)) == Low4(v)
  {
  }

  /** The value of a four-bit pattern read as a signed number. */
  function Signed4(x: bv4): (r: int)
    ensures -8 <= r <= 7
  {
    Sat4(x as int)
  }

  lemma Signed4Low4(x: bv4)
    ensures Low4(Signed4(x)) == x
  {
    Sat4Low4(x as int);
  }

  /** The zero flag as every case writes it: 1 exactly when y is 0. */
  function ZeroFlag(y: int): (zf: int)
    ensures zf == 1 <==> y == 0
    ensures zf == 0 || zf == 1
  {
    if y == 0 then 1 else 0
  }

  /** C's comparison result: 1 when true, 0 when false. */
  function Bool(b: bool): (r: int)
    ensures r == 0 || r == 1
    ensures r == 1 <==> b
  {
    if b then 1 else 0
  }

  /**
   * The switch of model_eval, on operands already in [-8, 7]: op 0 adds, op 1
   * subtracts (overflow judged from the operand and result signs), ops 2-5
   * are NOT, AND, OR and XOR, op 6 is signed less-than, op 7 equality, and
   * any other op gives y = 0 with zf = 1.
   */
  function Switch(op: int, a: int, b: int): (e: Expect)
    requires Fits4(a) && Fits4(b)
    ensures -8 <= e.y <= 7
    ensures e.zf == 1 <==> e.y == 0
    ensures e.of == 0 || e.of == 1
    ensures e.zf == 0 || e.zf == 1
    ensures !(op == 0 || op == 1) ==> e.of == 0
  {
    if op == 0 then
      var y := Sat4(a + b);
      Expect(y, Bool((a >= 0 && b >= 0 && y < 0) || (a < 0 && b < 0 && y >= 0)), ZeroFlag(y))
    else if op == 1 then
      var y := Sat4(a - b);
      Expect(y, Bool((a >= 0 && b < 0 && y < 0) || (a < 0 && b >= 0 && y >= 0)), ZeroFlag(y))
    else if op == 2 then
      var y := Sat4(-a - 1);
      Expect(y, 0, ZeroFlag(y))
    else if op == 3 then
      var y := Signed4(Low4(a) & Low4(b));
      Expect(y, 0, ZeroFlag(y))
    else if op == 4 then
      var y := Signed4(Low4(a) | Low4(b));
      Expect(y, 0, ZeroFlag(y))
    else if op == 5 then
      var y := Signed4(Low4(a) ^ Low4(b));
      Expect(y, 0, ZeroFlag(y))
    else if op == 6 then
      var y := Bool(a < b);
      Expect(y, 0, ZeroFlag(y))
    else if op == 7 then
      var y := Bool(a == b);
      Expect(y, 0, ZeroFlag(y))
    else
      Expect(0, 0, 1)
  }

  /** model_eval: both operands go through sat4, then the switch on op. */
  function ModelEval(op: int, a0: int, b0: int): (e: Expect)
    ensures -8 <= e.y <= 7 && (e.zf == 1 <==> e.y == 0)
    ensures !(op == 0 || op == 1) ==> e.of == 0
  {
    Switch(op, Sat4(a0), Sat4(b0))
  }

  /** The true sum of the operands fits in four signed bits. */
  predicate Fits4(v: int)
  {
    -8 <= v <= 7
  }

  /**
   * Addition: y is the wrapped sum, the overflow flag is set exactly when the
   * true sum leaves [-8, 7], and without overflow y is the true sum.
   */
  lemma AddOverflow(a0: int, b0: int)
    ensures var e, s := ModelEval(0, a0, b0), Sat4(a0) + Sat4(b0);
            e.y == Sat4(s) && (e.of == 1 <==> !Fits4(s)) && (e.of == 0 ==> e.y == s)
  {
    var a, b := Sat4(a0), Sat4(b0);
    var s := a + b;
    if s > 7 {
      assert Sat4(s) == s - 16;
    } else if s < -8 {
      assert Sat4(s) == s + 16;
    } else {
      Sat4Unique(s, s);
    }
  }

  /**
   * Subtraction: y is the wrapped difference, the overflow flag is set exactly
   * when the true difference leaves [-8, 7], and without overflow y is that difference.
   */
  lemma SubOverflow(a0: int, b0: int)
    ensures var e, d := ModelEval(1, a0, b0), Sat4(a0) - Sat4(b0);
            e.y == Sat4(d) && (e.of == 1 <==> !Fits4(d)) && (e.of == 0 ==> e.y == d)
  {
    var a, b := Sat4(a0), Sat4(b0);
    var d := a - b;
    if d > 7 {
      assert Sat4(d) == d - 16;
    } else if d < -8 {
      assert Sat4(d) == d + 16;
    } else {
      Sat4Unique(d, d);
    }
  }

  /** The logic ops compute, bit for bit, NOT, AND, OR and XOR of the operands' four-bit patterns. */
  lemma LogicOps(a: int, b: int)
    ensures Low4(ModelEval(2, a, b).y) == !Low4(a)
    ensures Low4(ModelEval(3, a, b).y) == Low4(a) & Low4(b)
    ensures Low4(ModelEval(4, a, b).y) == Low4(a) | Low4(b)
    ensures Low4(ModelEval(5, a, b).y) == Low4(a) ^ Low4(b)
  {
    Sat4Low4(a);
    Sat4Low4(b);
    var x, y := Sat4(a), Sat4(b);
    Sat4Low4(-x - 1);
    NotLow4(x);
    Signed4Low4(Low4(x) & Low4(y));
    Signed4Low4(Low4(x) | Low4(y));
    Signed4Low4(Low4(x) ^ Low4(y));
  }

  /** `~x` on a two's complement int flips its low four bits. */
  lemma NotLow4(x: int)
    requires -8 <= x <= 7
    ensures Low4(-x - 1) == !Low4(x)
  {
    var p := Low4(x);
    assert (-x - 1) % 16 == 15 - x % 16;
    assert !p == 15 - p by {
      assert p == 0 || p == 1 || p == 2 || p == 3 || p == 4 || p == 5 || p == 6 || p == 7 ||
             p == 8 || p == 9 || p == 10 || p == 11 || p == 12 || p == 13 || p == 14 || p == 15;
    }
  }

  /** Less-than and equality compare the signed operands and yield 0 or 1. */
  lemma Comparisons(a: int, b: int)
    ensures ModelEval(6, a, b).y == (if Sat4(a) < Sat4(b) then 1 else 0)
    ensures ModelEval(7, a, b).y == (if a % 16 == b % 16 then 1 else 0)
  {
    Sat4Unique(a, b);
  }

  /** Only the low four bits of the operands matter. */
  lemma LowBitsOnly(op: int, a: int, b: int, a2: int, b2: int)
    requires a % 16 == a2 % 16 && b % 16 == b2 % 16
    ensures ModelEval(op, a, b) == ModelEval(op, a2, b2)
  {
    Sat4Unique(a, a2);
    Sat4Unique(b, b2);
  }
}
