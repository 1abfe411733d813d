/**
 * The PS/2 side of the lab 7 keyboard testbench (digital/lab7/csrc/ps2_tb.cpp):
 * `odd_parity` computes the parity bit of a scan code, and `send_scan_code`
 * drives an 11-bit frame onto the data line: a start bit 0, the eight data
 * bits least significant first, the odd parity bit, and a stop bit 1. The
 * clocking and the simulator calls are not modelled; a frame is the sequence
 * of bits driven, in order.
 */
module Ps2 {
  /** Bit i of a scan code, as `(code >> i) & 1`. */
  function Bit(code: bv8, i: nat): (b: bv8)
    requires i < 8
    ensures b == 0 || b == 1
  {
    (code >> i) & 1
  }

  /** The number of 1 bits among bits 0 .. n - 1 of code. */
  function Ones(code: bv8, n: nat): nat
    requires n <= 8
  {
    if n == 0 then 0 else Ones(code, n - 1) + (if Bit(code, n - 1) == 1 then 1 else 0)
  }

  /** The odd parity bit: 1 exactly when the code has an even number of 1 bits. */
  function ParityBit(code: bv8): (p: bv8)
    ensures p == 0 || p == 1
  {
    if Ones(code, 8) % 2 == 0 then 1 else 0
  }

  /** The code's 1 bits and its parity bit together are always odd in number. */
  lemma ParityIsOdd(code: bv8)
    ensures (Ones(code, 8) + ParityBit(code) as nat) % 2 == 1
  {
  }

  /**
   * odd_parity: XOR the eight bits of code into p, then return the low bit
   * of ~p.
   */
  method OddParity(code: bv8) returns (r: bv8)
    ensures r == ParityBit(code)
    ensures r <= 1 && (Ones(code, 8) + r as nat) % 2 == 1
  {
    var p: bv8 := 0;
    for i := 0 to 8
      invariant p == if Ones(code, i) % 2 == 0 then 0 else 1
    {
      XorBit(p, Bit(code, i));
      p := p ^ ((code >> i) & 1);
    }
    NotBit(p);
    r := !p & 1;
    ParityIsOdd(code);
  }

  /** XOR on single bits. */
  lemma XorBit(p: bv8, b: bv8)
    requires p <= 1 && b <= 1
    ensures p ^ b == if p == b then 0 else 1
  {
  }

  /** The low bit of ~p on a single bit. */
  lemma NotBit(p: bv8)
    requires p <= 1
    ensures !p & 1 == 1 - p
  {
  }

  /** The frame send_scan_code drives: start, data bits LSB first, parity, stop. */
  function Frame(code: bv8): (f: seq<bv8>)
    ensures |f| == 11
  {
    [0] + seq(8, i requires 0 <= i < 8 => Bit(code, i)) + [ParityBit(code)] + [1]
  }

  /**
   * send_scan_code: the bits put on the data line, in order. drive_ps2_bit
   * keeps only the low bit of its argument.
   */
  method SendScanCode(code: bv8) returns (driven: seq<bv8>)
    ensures driven == Frame(code)
  {
    driven := [0 & 1];
    for i := 0 to 8
      invariant driven == [0] + seq(i, k requires 0 <= k < i => Bit(code, k))
    {
      driven := driven + [((code >> i) & 1) & 1];
    }
    var p := OddParity(code);
    driven := driven + [p & 1];
    driven := driven + [1 & 1];
  }

  /** The layout of the frame, bit by bit. */
  lemma FrameLayout(code: bv8)
    ensures Frame(code)[0] == 0 && Frame(code)[10] == 1
    ensures forall i :: 0 <= i < 8 ==> Frame(code)[i + 1] == Bit(code, i)
    ensures Frame(code)[9] == ParityBit(code)
    ensures forall k :: 0 <= k < 11 ==> Frame(code)[k] <= 1
  {
  }

  /**
   * What a receiver shifting in frame bits i .. 8 least significant first
   * holds: the low bit of each, at weights 1, 2, 4 and so on.
   */
  function Assemble(f: seq<bv8>, i: nat): bv8
    requires 1 <= i <= 9 <= |f|
    decreases 9 - i
  {
    if i == 9 then 0 else (f[i] & 1) | (Assemble(f, i + 1) << 1)
  }

  /** The receiver reassembles the scan code from the eight data bits of its frame. */
  lemma FrameDecode(code: bv8)
    ensures Assemble(Frame(code), 1) == code
  {
    var f := Frame(code);
    assert Assemble(f, 8) == Bit(code, 7);
    assert Assemble(f, 7) == Bit(code, 6) | (Bit(code, 7) << 1);
    assert Assemble(f, 6) == code >> 5;
    assert Assemble(f, 5) == code >> 4;
    assert Assemble(f, 4) == code >> 3;
    assert Assemble(f, 3) == code >> 2;
    assert Assemble(f, 2) == code >> 1;
  }

  /** The data and parity bits of every frame hold an odd number of 1s. */
  lemma FrameOddOnes(code: bv8)
    ensures (Ones(code, 8) + Frame(code)[9] as nat) % 2 == 1
  {
    ParityIsOdd(code);
  }
}
