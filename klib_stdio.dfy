/**
 * abstract-machine's klib formatted output (klib/src/stdio.c): `sprintint`
 * renders an int in base 10 or 16, and `vsnprintf` walks a format string
 * through the conversions %d, %x, %c, %s and %%, writing into a buffer of
 * declared size sz. The variadic arguments are a sequence of `Arg`s.
 */
module KlibStdio {
  import opened Machine
  import opened KlibString
  import KlibStdlib

  type Int32 = KlibStdlib.Int32

  /** The static table `digits`: "0123456789abcdef". */
  const DigitTable: seq<Byte> := [48, 49, 50, 51, 52, 53, 54, 55, 56, 57, 97, 98, 99, 100, 101, 102]

  const Minus: Byte := 45
  const Percent: Byte := 37

  /** The entry of the table for digit v, computed. */
  function Digit(v: nat): (c: Byte)
    requires v < 16
    ensures c != Minus
  {
    if v < 10 then 48 + v else 87 + v
  }

  /** Digit reads the table. */
  lemma DigitIsTable(v: nat)
    requires v < 16
    ensures Digit(v) == DigitTable[v]
  {
  }

  /** The digit a table character stands for. */
  function DigitValue(c: Byte): nat
  {
    if 48 <= c <= 57 then c - 48 else if 97 <= c <= 102 then c - 87 else 0
  }

  lemma DigitTableInverse(v: nat)
    requires v < 16
    ensures DigitValue(Digit(v)) == v
  {
  }

  /** The bases sprintint is called with: 10 for %d, 16 for %x. */
  type Base = b: int | b == 10 || b == 16 witness 10

  /** x / base and x % base, written per base so that they stay linear. */
  function Quot(x: nat, b: Base): (q: nat)
    ensures q <= x && (q != 0 ==> q < x)
  {
    if b == 10 then x / 10 else x / 16
  }

  /** v * base, written per base. */
  function Scale(v: nat, b: Base): nat
  {
    if b == 10 then v * 10 else v * 16
  }

  function Rem(x: nat, b: Base): (r: nat)
    ensures r < b && x == Scale(Quot(x, b), b) + r
    ensures Quot(x, b) == 0 ==> r == x
  {
    if b == 10 then x % 10 else x % 16
  }

  /** The base-b digits of x, least significant first, as the do-while produces them; 0 gives "0". */
  function Lsd(x: nat, b: Base): (d: seq<Byte>)
    ensures |d| >= 1 && d[0] == Digit(Rem(x, b))
    decreases x
  {
    [Digit(Rem(x, b))] + (if Quot(x, b) == 0 then [] else Lsd(Quot(x, b), b))
  }

  function Reverse(s: seq<Byte>): (r: seq<Byte>)
    ensures |r| == |s| && forall k :: 0 <= k < |s| ==> r[k] == s[|s| - 1 - k]
  {
    seq(|s|, k requires 0 <= k < |s| => s[|s| - 1 - k])
  }

  lemma ReverseCons(c: Byte, s: seq<Byte>)
    ensures Reverse([c] + s) == Reverse(s) + [c]
  {
  }

  lemma ReverseSnoc(s: seq<Byte>, c: Byte)
    ensures Reverse(s + [c]) == [c] + Reverse(s)
  {
  }

  /** The base-b numeral of x, most significant digit first. */
  function Numeral(x: nat, b: Base): (d: seq<Byte>)
    ensures |d| >= 1 && d[|d| - 1] == Digit(Rem(x, b))
    decreases x
  {
    (if Quot(x, b) == 0 then [] else Numeral(Quot(x, b), b)) + [Digit(Rem(x, b))]
  }

  /** The numeral is the least-significant-first digit list reversed. */
  lemma {:induction false} LsdReversed(x: nat, b: Base)
    ensures Reverse(Lsd(x, b)) == Numeral(x, b)
    decreases x
  {
    if Quot(x, b) != 0 {
      LsdReversed(Quot(x, b), b);
      ReverseCons(Digit(Rem(x, b)), Lsd(Quot(x, b), b));
    }
  }

  /** Reads a numeral back: the inverse of Numeral. */
  function ParseDigits(d: seq<Byte>, b: Base): nat
  {
    if |d| == 0 then 0 else Scale(ParseDigits(d[..|d| - 1], b), b) + DigitValue(d[|d| - 1])
  }

  /** Printing then reading back a numeral gives the number. */
  lemma {:induction false} NumeralRoundTrip(x: nat, b: Base)
    ensures ParseDigits(Numeral(x, b), b) == x
    decreases x
  {
    var d := Numeral(x, b);
    var q, r := Quot(x, b), Rem(x, b);
    DigitTableInverse(r);
    if q == 0 {
      assert d == [Digit(r)] && d[..0] == [];
    } else {
      var p := Numeral(q, b);
      assert d == p + [Digit(r)];
      assert d[..|d| - 1] == p;
      NumeralRoundTrip(q, b);
    }
  }

  /** A number below 10^k has at most k digits. */
  lemma {:induction false} LsdShort(x: nat, b: Base, k: nat)
    requires k >= 1 && x < Pow10(k)
    ensures |Lsd(x, b)| <= k
    decreases k
  {
    if Quot(x, b) != 0 {
      assert k > 1;
      LsdShort(Quot(x, b), b, k - 1);
    }
  }

  function Pow10(k: nat): (p: nat)
    ensures p >= 1
  {
    if k == 0 then 1 else 10 * Pow10(k - 1)
  }

  /** A 32-bit magnitude has at most 10 digits in base 10 or 16. */
  lemma WordDigits(x: Word, b: Base)
    ensures |Lsd(x, b)| <= 10
  {
    assert Pow10(10) == 10_000_000_000;
    LsdShort(x, b, 10);
  }

  /** `sign && (sign = xx < 0)`: a '-' is printed. */
  predicate Negative(xx: Int32, sign: int)
  {
    sign != 0 && xx < 0
  }

  /** The uint32_t x sprintint converts: -xx for a printed '-', else xx as unsigned. */
  function Magnitude(xx: Int32, sign: int): (m: Word)
    ensures Negative(xx, sign) ==> m == -(xx as int)
    ensures !Negative(xx, sign) ==> (m - xx) % WordMod == 0
  {
    if Negative(xx, sign) then -(xx as int) else xx % WordMod
  }

  /** What sprintint writes: an optional '-', then the magnitude's numeral. */
  function IntText(xx: Int32, b: Base, sign: int): seq<Byte>
  {
    (if Negative(xx, sign) then [Minus] else []) + Numeral(Magnitude(xx, sign), b)
  }

  /** A numeral never starts with '-'. */
  lemma {:induction false} NumeralFirst(x: nat, b: Base)
    ensures Numeral(x, b)[0] != Minus
    decreases x
  {
    if Quot(x, b) != 0 {
      NumeralFirst(Quot(x, b), b);
    }
  }

  /** An optional '-' followed by the numeral of a 32-bit magnitude. */
  lemma SignedNumeral(neg: bool, m: Word, b: Base)
    ensures var t := (if neg then [Minus] else []) + Numeral(m, b);
            1 <= |t| <= 11 && (t[0] == Minus <==> neg) &&
            ParseDigits(if neg then t[1..] else t, b) == m
  {
    var d := Numeral(m, b);
    WordDigits(m, b);
    LsdReversed(m, b);
    NumeralRoundTrip(m, b);
    NumeralFirst(m, b);
    var t := (if neg then [Minus] else []) + d;
    if neg {
      assert t[1..] == d;
    } else {
      assert t == d;
    }
  }

  /**
   * The text has 1 to 11 characters, begins with '-' exactly when a sign is
   * printed, and reads back to the magnitude.
   */
  lemma IntTextFacts(xx: Int32, b: Base, sign: int)
    ensures 1 <= |IntText(xx, b, sign)| <= 11
    ensures IntText(xx, b, sign)[0] == Minus <==> Negative(xx, sign)
    ensures var digits := if Negative(xx, sign) then IntText(xx, b, sign)[1..] else IntText(xx, b, sign);
            ParseDigits(digits, b) == Magnitude(xx, sign)
  {
    SignedNumeral(Negative(xx, sign), Magnitude(xx, sign), b);
  }

  /** 0 prints as "0": the do-while runs once. */
  lemma IntTextZero(b: Base, sign: int)
    ensures IntText(0, b, sign) == [48]
  {
    assert Numeral(0, b) == [Digit(0)];
  }

  /** The do-while of sprintint: store the digits of x, least significant first, in buf. */
  method FillDigits(buf: array<Byte>, x0: nat, base: Base) returns (i: nat)
    requires |Lsd(x0, base)| <= buf.Length
    modifies buf
    ensures i == |Lsd(x0, base)| && buf[..i] == Lsd(x0, base)
  {
    var x: nat := x0;
    i := 0;
    ghost var done: seq<Byte> := [];
    while true
      invariant i == |done| && done + Lsd(x, base) == Lsd(x0, base)
      invariant forall k :: 0 <= k < i ==> buf[k] == done[k]
      decreases x
    {
      var d := Digit(Rem(x, base));
      LsdSplit(done, x, base);
      buf[i] := d;
      done := done + [d];
      i := i + 1;
      if Quot(x, base) == 0 {
        assert buf[..i] == done;
        return;
      }
      x := Quot(x, base);
    }
  }

  /** One turn of the do-while: the next digit stored is the head of the digits still to come. */
  lemma LsdSplit(done: seq<Byte>, x: nat, b: Base)
    ensures done + Lsd(x, b) == (done + [Digit(Rem(x, b))]) + (if Quot(x, b) == 0 then [] else Lsd(Quot(x, b), b))
  {
    var d, rest := Digit(Rem(x, b)), if Quot(x, b) == 0 then [] else Lsd(Quot(x, b), b);
    assert Lsd(x, b) == [d] + rest;
    assert done + ([d] + rest) == (done + [d]) + rest;
  }

  /** The copy-out loop of sprintint: `while (--i >= 0) n += sputc(s + n, buf[i]);`. */
  method CopyReversed(s: array<Byte>, at: nat, buf: array<Byte>, len: nat, ghost want: seq<Byte>)
    requires s != buf && len <= buf.Length && at + len <= s.Length
    requires want == Reverse(buf[..len])
    modifies s
    ensures s[at..at + len] == want
    ensures forall k :: 0 <= k < s.Length && !(at <= k < at + len) ==> s[k] == old(s[k])
  {
    var i, n := len, 0;
    while i > 0
      invariant 0 <= i && n + i == len
      invariant forall k :: at <= k < at + n ==> s[k] == buf[len - 1 - (k - at)]
      invariant forall k :: 0 <= k < s.Length && !(at <= k < at + n) ==> s[k] == old(s[k])
    {
      i := i - 1;
      s[at + n] := buf[i];
      n := n + 1;
    }
  }

  /** The local buffer of sprintint after the do-while and the optional '-': the text, reversed. */
  method ReversedText(x: Word, base: Base, neg: bool) returns (buf: array<Byte>, i: nat)
    ensures fresh(buf) && 1 <= i <= 11 && i <= buf.Length
    ensures Reverse(buf[..i]) == (if neg then [Minus] else []) + Numeral(x, base)
  {
    buf := new Byte[16](_ => 0);
    WordDigits(x, base);
    i := FillDigits(buf, x, base);
    ghost var digits := buf[..i];
    LsdReversed(x, base);
    if neg {
      buf[i] := Minus;
      i := i + 1;
      assert buf[..i] == digits + [Minus];
      ReverseSnoc(digits, Minus);
    }
  }

  /**
   * sprintint(s, xx, base, sign): fill a local 16-byte buffer with the digits,
   * least significant first (a do-while, so 0 gives "0"), add '-', then copy it
   * out reversed. Returns the number of characters written.
   */
  method SprintInt(s: array<Byte>, at: nat, xx: Int32, base: Base, sign: int) returns (n: nat)
    requires at + |IntText(xx, base, sign)| <= s.Length
    modifies s
    ensures n == |IntText(xx, base, sign)| && 1 <= n <= 11
    ensures s[at..at + n] == IntText(xx, base, sign)
    ensures forall k :: 0 <= k < s.Length && !(at <= k < at + n) ==> s[k] == old(s[k])
  {
    var neg := sign != 0 && xx < 0;
    var x: nat := if neg then -(xx as int) else xx % WordMod;
    assert x == Magnitude(xx, sign);
    var buf, i := ReversedText(x, base, neg);
    CopyReversed(s, at, buf, i, IntText(xx, base, sign));
    n := i;
  }

  // ---------------------------------------------------------------------------
  // vsnprintf and its callers
  // ---------------------------------------------------------------------------

  /** BUF_SIZE, the stack buffer of printf. */
  const BufSize: nat := 4096
  /** SIZE_MAX on the 32-bit target: the size sprintf passes. */
  const SizeMax: Word := 0xFFFF_FFFF
  /**
   * The int a character count becomes when vsnprintf returns its size_t off as
   * int (and sprintf, snprintf and printf store it in `int off`): reduced to 32
   * bits and read as two's complement, as the conversion does on the target.
   */
  function IntResult(n: nat): (r: int)
    ensures -0x8000_0000 <= r < 0x8000_0000 && (r - n) % WordMod == 0
    ensures n < 0x8000_0000 ==> r == n
    ensures 0x8000_0000 <= n < WordMod ==> r < 0
  {
    Signed(Wrap(n))
  }

  /** What %s prints for a NULL pointer: "(null)". */
  const NullText: seq<Byte> := [40, 110, 117, 108, 108, 41]

  const LetterC: Byte := 99
  const LetterD: Byte := 100
  const LetterS: Byte := 115
  const LetterX: Byte := 120

  /** A variadic argument: an int, or a char pointer (None for NULL) to the bytes before its NUL. */
  datatype Arg = IntArg(v: Int32) | StrArg(s: Option<seq<Byte>>)

  predicate NulFree(t: seq<Byte>)
  {
    forall k :: 0 <= k < |t| ==> t[k] != 0
  }

  /** The characters %s copies. */
  function StrText(p: Option<seq<Byte>>): (t: seq<Byte>)
    ensures p.None? ==> t == NullText
  {
    if p.None? then NullText else p.value
  }

  /**
   * The arguments match the conversions of f, in order, as the printf format
   * attribute demands: %d, %x and %c an int, %s a char pointer to a C string.
   * Extra arguments are allowed.
   */
  predicate WellTyped(f: seq<Byte>, args: seq<Arg>)
    decreases |f|
  {
    if |f| == 0 then true
    else if f[0] != Percent then WellTyped(f[1..], args)
    else if |f| == 1 then true
    else if TakesInt(f[1]) then
      |args| > 0 && args[0].IntArg? && WellTyped(f[2..], args[1..])
    else if f[1] == LetterS then
      |args| > 0 && args[0].StrArg? && (args[0].s.Some? ==> NulFree(args[0].s.value)) &&
      WellTyped(f[2..], args[1..])
    else WellTyped(f[2..], args)
  }

  /** One single-character piece per character. */
  function Chars(t: seq<Byte>): (r: seq<seq<Byte>>)
    ensures |r| == |t| && forall k :: 0 <= k < |t| ==> r[k] == [t[k]]
  {
    seq(|t|, k requires 0 <= k < |t| => [t[k]])
  }

  /**
   * The output of format f split at the points where vsnprintf tests
   * off < sz: a plain character, a %s character, a whole %d or %x number,
   * a %c character, "%" for %%, and "%" plus the character for any other
   * conversion. A '%' at the end of f stops the output.
   */
  function Pieces(f: seq<Byte>, args: seq<Arg>): seq<seq<Byte>>
    requires WellTyped(f, args)
    decreases |f|
  {
    if |f| == 0 then []
    else if f[0] != Percent then [[f[0]]] + Pieces(f[1..], args)
    else if |f| == 1 then []
    else if f[1] == LetterS then Chars(StrText(args[0].s)) + Pieces(f[2..], args[1..])
    else if TakesInt(f[1]) then [ConvText(f[1], args[0])] + Pieces(f[2..], args[1..])
    else [ConvText(f[1], NoArg)] + Pieces(f[2..], args)
  }

  predicate TakesInt(c: Byte)
  {
    c == LetterD || c == LetterX || c == LetterC
  }

  /** Stands in for the argument of a conversion that reads none. */
  const NoArg: Arg := IntArg(0)

  /** The text of a conversion other than %s: %d, %x, %c, %%, or an unknown c, printed as '%' and c. */
  function ConvText(c: Byte, a: Arg): seq<Byte>
    requires TakesInt(c) ==> a.IntArg?
  {
    if c == LetterD then IntText(a.v, 10, 1)
    else if c == LetterX then IntText(a.v, 16, 1)
    else if c == LetterC then [a.v % 256]
    else if c == Percent then [Percent]
    else [Percent, c]
  }

  function Flatten(ps: seq<seq<Byte>>): seq<Byte>
  {
    if |ps| == 0 then [] else ps[0] + Flatten(ps[1..])
  }

  /** The full, untruncated expansion of f. */
  function Expand(f: seq<Byte>, args: seq<Arg>): seq<Byte>
    requires WellTyped(f, args)
  {
    Flatten(Pieces(f, args))
  }

  /** The pieces written while room (sz - off) stays positive: a prefix of ps. */
  function Emit(ps: seq<seq<Byte>>, room: int): seq<seq<Byte>>
  {
    if |ps| == 0 || room <= 0 then [] else [ps[0]] + Emit(ps[1..], room - |ps[0]|)
  }

  /** The pieces written are the first pieces of the expansion. */
  lemma {:induction false} EmitPrefix(ps: seq<seq<Byte>>, room: int)
    ensures var e := Emit(ps, room); |e| <= |ps| && e == ps[..|e|]
    decreases |ps|
  {
    if |ps| > 0 && room > 0 {
      EmitPrefix(ps[1..], room - |ps[0]|);
    }
  }

  /** The characters of the pieces written with the given room. */
  function Written(ps: seq<seq<Byte>>, room: int): seq<Byte>
  {
    Flatten(Emit(ps, room))
  }

  /** What vsnprintf(buf, sz, f, args) leaves before the NUL it writes. */
  function Output(f: seq<Byte>, args: seq<Arg>, sz: int): seq<Byte>
    requires WellTyped(f, args)
  {
    Written(Pieces(f, args), sz)
  }

  lemma {:induction false} FlattenAppend(a: seq<seq<Byte>>, b: seq<seq<Byte>>)
    ensures Flatten(a + b) == Flatten(a) + Flatten(b)
    decreases |a|
  {
    if |a| == 0 {
      assert a + b == b;
    } else {
      assert (a + b)[0] == a[0] && (a + b)[1..] == a[1..] + b;
      FlattenAppend(a[1..], b);
    }
  }

  lemma {:induction false} FlattenChars(t: seq<Byte>)
    ensures Flatten(Chars(t)) == t
    decreases |t|
  {
    if |t| > 0 {
      assert Chars(t)[1..] == Chars(t[1..]);
      FlattenChars(t[1..]);
    }
  }

  /** When the whole expansion fits below the room, every piece is written. */
  lemma {:induction false} EmitAll(ps: seq<seq<Byte>>, room: int)
    requires |Flatten(ps)| < room
    ensures Emit(ps, room) == ps
    decreases |ps|
  {
    if |ps| > 0 {
      EmitAll(ps[1..], room - |ps[0]|);
    }
  }

  /** When the expansion reaches the room, at least the room is written. */
  lemma {:induction false} EmitReaches(ps: seq<seq<Byte>>, room: int)
    requires room <= |Flatten(ps)|
    ensures room <= |Flatten(Emit(ps, room))|
    decreases |ps|
  {
    if |ps| > 0 && room > 0 {
      EmitReaches(ps[1..], room - |ps[0]|);
    }
  }

  /** With pieces of at most w characters, writing stops within w - 1 characters past the room. */
  lemma {:induction false} EmitOvershoot(ps: seq<seq<Byte>>, room: int, w: nat)
    requires forall k :: 0 <= k < |ps| ==> |ps[k]| <= w
    ensures room <= 0 ==> Emit(ps, room) == []
    ensures room > 0 ==> |Flatten(Emit(ps, room))| <= room - 1 + w
    decreases |ps|
  {
    if |ps| > 0 && room > 0 {
      EmitOvershoot(ps[1..], room - |ps[0]|, w);
    }
  }

  /** A conversion other than %s prints 1 to 11 characters. */
  lemma ConvTextShort(c: Byte, a: Arg)
    requires TakesInt(c) ==> a.IntArg?
    ensures 1 <= |ConvText(c, a)| <= 11
  {
    if c == LetterD {
      IntTextFacts(a.v, 10, 1);
    } else if c == LetterX {
      IntTextFacts(a.v, 16, 1);
    }
  }

  /** Pieces that are all 1 to 11 characters long. */
  predicate ShortPieces(ps: seq<seq<Byte>>)
  {
    forall k :: 0 <= k < |ps| ==> 1 <= |ps[k]| <= 11
  }

  /** Every piece of the expansion has 1 to 11 characters. */
  lemma {:induction false} PiecesShort(f: seq<Byte>, args: seq<Arg>)
    requires WellTyped(f, args)
    ensures ShortPieces(Pieces(f, args))
    decreases |f|
  {
    if |f| == 0 || (f[0] == Percent && |f| == 1) {
    } else if f[0] != Percent {
      PiecesShort(f[1..], args);
      assert Pieces(f, args) == [[f[0]]] + Pieces(f[1..], args);
    } else if f[1] == LetterS {
      PiecesShort(f[2..], args[1..]);
      assert Pieces(f, args) == Chars(StrText(args[0].s)) + Pieces(f[2..], args[1..]);
    } else if TakesInt(f[1]) {
      ConvTextShort(f[1], args[0]);
      PiecesShort(f[2..], args[1..]);
      assert Pieces(f, args) == [ConvText(f[1], args[0])] + Pieces(f[2..], args[1..]);
    } else {
      ConvTextShort(f[1], NoArg);
      PiecesShort(f[2..], args);
      assert Pieces(f, args) == [ConvText(f[1], NoArg)] + Pieces(f[2..], args);
    }
  }

  /**
   * What vsnprintf promises about its output: a prefix of the expansion; all
   * of it when it is shorter than sz; otherwise at least sz and at most
   * sz + 10 characters (a number may run 10 past the limit); nothing for sz = 0.
   */
  lemma OutputFacts(f: seq<Byte>, args: seq<Arg>, sz: int)
    requires WellTyped(f, args)
    ensures var e, o := Expand(f, args), Output(f, args, sz);
            |o| <= |e| && o == e[..|o|] &&
            (|e| < sz ==> o == e) &&
            (sz <= |e| ==> sz <= |o|) &&
            (sz > 0 ==> |o| <= sz + 10) && (sz <= 0 ==> o == [])
  {
    var ps := Pieces(f, args);
    var em := Emit(ps, sz);
    EmitPrefix(ps, sz);
    assert ps == em + ps[|em|..];
    FlattenAppend(em, ps[|em|..]);
    if |Flatten(ps)| < sz {
      EmitAll(ps, sz);
    } else {
      EmitReaches(ps, sz);
    }
    PiecesShort(f, args);
    EmitOvershoot(ps, sz, 11);
  }

  /** A format with no conversion expands to itself. */
  lemma {:induction false} PlainFormat(f: seq<Byte>, args: seq<Arg>)
    requires forall k :: 0 <= k < |f| ==> f[k] != Percent
    ensures WellTyped(f, args) && Pieces(f, args) == Chars(f) && Expand(f, args) == f
    decreases |f|
  {
    if |f| > 0 {
      PlainFormat(f[1..], args);
      assert Chars(f) == [[f[0]]] + Chars(f[1..]);
    }
    FlattenChars(f);
  }

  /** While room remains, the next piece is written whole. */
  lemma WrittenCons(p: seq<Byte>, tail: seq<seq<Byte>>, room: int)
    requires room > 0
    ensures Written([p] + tail, room) == p + Written(tail, room - |p|)
  {
    assert ([p] + tail)[0] == p && ([p] + tail)[1..] == tail;
  }

  /** Once the room is used up nothing more is written, and nothing is written from no pieces. */
  lemma WrittenNone(ps: seq<seq<Byte>>, room: int)
    requires room <= 0 || |ps| == 0
    ensures Written(ps, room) == []
  {
  }

  /** The remaining %s characters after one is written. */
  lemma CharsStep(t: seq<Byte>, q: nat, tail: seq<seq<Byte>>)
    requires q < |t|
    ensures Chars(t[q..]) + tail == [[t[q]]] + (Chars(t[q + 1..]) + tail)
  {
    assert Chars(t[q..]) == [[t[q]]] + Chars(t[q + 1..]);
  }

  /** out[at..] begins with p: its characters sit at out[at], out[at + 1], ... */
  lemma Begins(out: seq<Byte>, at: nat, p: seq<Byte>, w: seq<Byte>)
    requires at <= |out| && out[at..] == p + w
    ensures at + |p| <= |out| && out[at + |p|..] == w
    ensures forall k :: at <= k < at + |p| ==> out[k] == p[k - at]
  {
    assert out[at + |p|..] == out[at..][|p|..];
    forall k | at <= k < at + |p|
      ensures out[k] == p[k - at]
    {
      assert out[k] == out[at..][k - at];
    }
  }

  /**
   * The %s loop: copy t one character at a time while off < sz. The ghost out
   * is what the whole vsnprintf call writes; buf agrees with it before off.
   */
  method PutStr(buf: array<Byte>, off0: nat, sz: Word, t: seq<Byte>,
                ghost out: seq<Byte>, ghost tail: seq<seq<Byte>>)
    returns (off: nat, ghost rest: seq<seq<Byte>>)
    requires |out| < buf.Length && off0 <= |out|
    requires forall k :: 0 <= k < off0 ==> buf[k] == out[k]
    requires out[off0..] == Written(Chars(t) + tail, sz - off0)
    modifies buf
    ensures off0 <= off <= |out|
    ensures forall k :: 0 <= k < off ==> buf[k] == out[k]
    ensures out[off..] == Written(rest, sz - off)
    ensures off < sz ==> rest == tail
    ensures forall k :: off <= k < buf.Length ==> buf[k] == old(buf[k])
  {
    var q := 0;
    off := off0;
    assert t[0..] == t;
    while q < |t| && off < sz
      invariant q <= |t| && off0 <= off <= |out|
      invariant forall k :: 0 <= k < off ==> buf[k] == out[k]
      invariant out[off..] == Written(Chars(t[q..]) + tail, sz - off)
      invariant forall k :: off <= k < buf.Length ==> buf[k] == old(buf[k])
    {
      CharsStep(t, q, tail);
      WrittenCons([t[q]], Chars(t[q + 1..]) + tail, sz - off);
      Begins(out, off, [t[q]], Written(Chars(t[q + 1..]) + tail, sz - off - 1));
      buf[off] := t[q];
      off, q := off + 1, q + 1;
    }
    rest := Chars(t[q..]) + tail;
    if q == |t| {
      assert Chars(t[q..]) == [];
      assert rest == tail;
    }
  }

  /** sprintint(buf + off, v, base, 1), as %d and %x call it. */
  method PutInt(buf: array<Byte>, off: nat, v: Int32, base: Base) returns (w: nat)
    requires off + |IntText(v, base, 1)| <= buf.Length
    modifies buf
    ensures w == |IntText(v, base, 1)| && forall k :: off <= k < off + w ==> buf[k] == IntText(v, base, 1)[k - off]
    ensures forall k :: 0 <= k < buf.Length && !(off <= k < off + w) ==> buf[k] == old(buf[k])
  {
    w := SprintInt(buf, off, v, base, 1);
    forall k | off <= k < off + w
      ensures buf[k] == IntText(v, base, 1)[k - off]
    {
      assert buf[k] == buf[off..off + w][k - off];
    }
  }

  /**
   * The switch of vsnprintf for %d, %x, %c, %% and an unknown conversion c:
   * writes the piece at buf[off] and returns its length.
   */
  method PutConversion(buf: array<Byte>, off: nat, c: Byte, a: Arg) returns (w: nat)
    requires c != LetterS && (TakesInt(c) ==> a.IntArg?)
    requires off + |ConvText(c, a)| <= buf.Length
    modifies buf
    ensures w == |ConvText(c, a)| && forall k :: off <= k < off + w ==> buf[k] == ConvText(c, a)[k - off]
    ensures forall k :: 0 <= k < buf.Length && !(off <= k < off + w) ==> buf[k] == old(buf[k])
  {
    ghost var t := ConvText(c, a);
    if c == LetterD || c == LetterX {
      var base: Base := if c == LetterD then 10 else 16;
      assert t == IntText(a.v, base, 1);
      w := PutInt(buf, off, a.v, base);
    } else if c == LetterC {
      buf[off] := a.v % 256;
      w := 1;
    } else if c == Percent {
      buf[off] := Percent;
      w := 1;
    } else {
      buf[off] := Percent;
      buf[off + 1] := c;
      w := 2;
    }
  }

  /** The slices of f and args one or two places on. */
  lemma Slices(f: seq<Byte>, i: nat, args: seq<Arg>, j: nat)
    requires i < |f| && j <= |args|
    ensures f[i..][0] == f[i] && f[i..][1..] == f[i + 1..]
    ensures i + 1 < |f| ==> f[i..][1] == f[i + 1] && f[i..][2..] == f[i + 2..]
    ensures j < |args| ==> args[j..][0] == args[j] && args[j..][1..] == args[j + 1..]
  {
  }

  /** A plain character is a piece of its own. */
  lemma PiecesPlain(f: seq<Byte>, i: nat, args: seq<Arg>, j: nat)
    requires i < |f| && j <= |args| && WellTyped(f[i..], args[j..]) && f[i] != Percent
    ensures WellTyped(f[i + 1..], args[j..])
    ensures Pieces(f[i..], args[j..]) == [[f[i]]] + Pieces(f[i + 1..], args[j..])
  {
    Slices(f, i, args, j);
  }

  /** A '%' at the end of the format ends the output. */
  lemma PiecesTrailingPercent(f: seq<Byte>, i: nat, args: seq<Arg>, j: nat)
    requires i + 1 == |f| && j <= |args| && f[i] == Percent
    ensures Pieces(f[i..], args[j..]) == []
  {
    Slices(f, i, args, j);
  }

  /** %s consumes a string argument and yields one piece per character. */
  lemma PiecesString(f: seq<Byte>, i: nat, args: seq<Arg>, j: nat)
    requires i + 1 < |f| && j <= |args| && WellTyped(f[i..], args[j..])
    requires f[i] == Percent && f[i + 1] == LetterS
    ensures j < |args| && args[j].StrArg? && (args[j].s.Some? ==> NulFree(args[j].s.value))
    ensures WellTyped(f[i + 2..], args[j + 1..])
    ensures Pieces(f[i..], args[j..]) == Chars(StrText(args[j].s)) + Pieces(f[i + 2..], args[j + 1..])
  {
    Slices(f, i, args, j);
  }

  /** %d, %x and %c consume an int argument and yield one piece. */
  lemma PiecesIntConversion(f: seq<Byte>, i: nat, args: seq<Arg>, j: nat)
    requires i + 1 < |f| && j <= |args| && WellTyped(f[i..], args[j..])
    requires f[i] == Percent && TakesInt(f[i + 1])
    ensures j < |args| && args[j].IntArg? && WellTyped(f[i + 2..], args[j + 1..])
    ensures Pieces(f[i..], args[j..]) == [ConvText(f[i + 1], args[j])] + Pieces(f[i + 2..], args[j + 1..])
  {
    Slices(f, i, args, j);
  }

  /** %% and an unknown conversion yield one piece and consume no argument. */
  lemma PiecesOtherConversion(f: seq<Byte>, i: nat, args: seq<Arg>, j: nat)
    requires i + 1 < |f| && j <= |args| && WellTyped(f[i..], args[j..])
    requires f[i] == Percent && f[i + 1] != LetterS && !TakesInt(f[i + 1])
    ensures WellTyped(f[i + 2..], args[j..])
    ensures Pieces(f[i..], args[j..]) == [ConvText(f[i + 1], NoArg)] + Pieces(f[i + 2..], args[j..])
  {
    Slices(f, i, args, j);
  }

  /** A plain format character, written at off while off < sz. */
  method StepPlain(buf: array<Byte>, off0: nat, sz: Word, c: Byte,
                   ghost out: seq<Byte>, ghost tail: seq<seq<Byte>>) returns (off: nat)
    requires off0 < sz && |out| < buf.Length && off0 <= |out|
    requires forall k :: 0 <= k < off0 ==> buf[k] == out[k]
    requires out[off0..] == Written([[c]] + tail, sz - off0)
    modifies buf
    ensures off0 <= off <= |out|
    ensures forall k :: 0 <= k < off ==> buf[k] == out[k]
    ensures out[off..] == Written(tail, sz - off)
    ensures forall k :: off <= k < buf.Length ==> buf[k] == old(buf[k])
  {
    WrittenCons([c], tail, sz - off0);
    Begins(out, off0, [c], Written(tail, sz - off0 - 1));
    buf[off0] := c;
    off := off0 + 1;
  }

  /** One conversion other than %s, written whole at off while off < sz. */
  method StepConversion(buf: array<Byte>, off0: nat, sz: Word, c: Byte, a: Arg,
                        ghost out: seq<Byte>, ghost tail: seq<seq<Byte>>) returns (off: nat)
    requires c != LetterS && (TakesInt(c) ==> a.IntArg?)
    requires off0 < sz && |out| < buf.Length && off0 <= |out|
    requires forall k :: 0 <= k < off0 ==> buf[k] == out[k]
    requires out[off0..] == Written([ConvText(c, a)] + tail, sz - off0)
    modifies buf
    ensures off0 <= off <= |out|
    ensures forall k :: 0 <= k < off ==> buf[k] == out[k]
    ensures out[off..] == Written(tail, sz - off)
    ensures forall k :: off <= k < buf.Length ==> buf[k] == old(buf[k])
  {
    ghost var p := ConvText(c, a);
    WrittenCons(p, tail, sz - off0);
    Begins(out, off0, p, Written(tail, sz - off0 - |p|));
    var w := PutConversion(buf, off0, c, a);
    off := off0 + w;
  }

  /** The conversion at f[i + 1], taking its argument, if any, from args[j]. */
  method StepConversionAt(buf: array<Byte>, off0: nat, sz: Word, f: seq<Byte>, i: nat,
                          args: seq<Arg>, j: nat, ghost out: seq<Byte>) returns (off: nat)
    requires i + 1 < |f| && j <= |args| && WellTyped(f[i..], args[j..])
    requires f[i] == Percent && f[i + 1] != LetterS
    requires off0 < sz && |out| < buf.Length && off0 <= |out|
    requires forall k :: 0 <= k < off0 ==> buf[k] == out[k]
    requires out[off0..] == Written(Pieces(f[i..], args[j..]), sz - off0)
    modifies buf
    ensures off0 <= off <= |out|
    ensures var j' := if TakesInt(f[i + 1]) then j + 1 else j;
            j' <= |args| && WellTyped(f[i + 2..], args[j'..]) &&
            out[off..] == Written(Pieces(f[i + 2..], args[j'..]), sz - off)
    ensures forall k :: 0 <= k < off ==> buf[k] == out[k]
    ensures forall k :: off <= k < buf.Length ==> buf[k] == old(buf[k])
  {
    var c := f[i + 1];
    if TakesInt(c) {
      PiecesIntConversion(f, i, args, j);
      off := StepConversion(buf, off0, sz, c, args[j], out, Pieces(f[i + 2..], args[j + 1..]));
    } else {
      PiecesOtherConversion(f, i, args, j);
      off := StepConversion(buf, off0, sz, c, NoArg, out, Pieces(f[i + 2..], args[j..]));
    }
  }

  /** One turn of the loop of vsnprintf, from f[i], when that is not a '%' ending the format. */
  method FormatStep(buf: array<Byte>, off0: nat, sz: Word, f: seq<Byte>, i0: nat,
                    args: seq<Arg>, j0: nat, ghost out: seq<Byte>)
    returns (off: nat, i: nat, j: nat, ghost rest: seq<seq<Byte>>)
    requires i0 < |f| && !(f[i0] == Percent && i0 + 1 == |f|)
    requires j0 <= |args| && WellTyped(f[i0..], args[j0..])
    requires off0 < sz && |out| < buf.Length && off0 <= |out|
    requires forall k :: 0 <= k < off0 ==> buf[k] == out[k]
    requires out[off0..] == Written(Pieces(f[i0..], args[j0..]), sz - off0)
    modifies buf
    ensures i0 < i <= |f| && j0 <= j <= |args| && WellTyped(f[i..], args[j..])
    ensures off0 <= off <= |out|
    ensures forall k :: 0 <= k < off ==> buf[k] == out[k]
    ensures out[off..] == Written(rest, sz - off)
    ensures off < sz ==> rest == Pieces(f[i..], args[j..])
    ensures forall k :: off <= k < buf.Length ==> buf[k] == old(buf[k])
  {
    var c := f[i0];
    j := j0;
    if c != Percent {
      PiecesPlain(f, i0, args, j0);
      rest := Pieces(f[i0 + 1..], args[j0..]);
      off := StepPlain(buf, off0, sz, c, out, rest);
      i := i0 + 1;
      return;
    }
    c := f[i0 + 1];
    if c == LetterS {
      PiecesString(f, i0, args, j0);
      off, rest := PutStr(buf, off0, sz, StrText(args[j0].s), out, Pieces(f[i0 + 2..], args[j0 + 1..]));
      j := j0 + 1;
    } else {
      j := if TakesInt(c) then j0 + 1 else j0;
      off := StepConversionAt(buf, off0, sz, f, i0, args, j0, out);
      rest := Pieces(f[i0 + 2..], args[j..]);
    }
    i := i0 + 2;
  }

  /**
   * The loop of vsnprintf over the format f (the bytes of fmt before its
   * NUL): expand f into buf while off < sz, then write a NUL at buf[off].
   */
  method Format(buf: array<Byte>, sz: Word, f: seq<Byte>, args: seq<Arg>) returns (off: nat)
    requires WellTyped(f, args)
    requires |Output(f, args, sz)| < buf.Length
    modifies buf
    ensures off == |Output(f, args, sz)|
    ensures buf[..off] == Output(f, args, sz) && buf[off] == 0
    ensures forall k :: off < k < buf.Length ==> buf[k] == old(buf[k])
  {
    ghost var out := Output(f, args, sz);
    ghost var rest := Pieces(f, args);
    assert f[0..] == f && args[0..] == args && out[0..] == out;
    off := 0;
    var i, j := 0, 0;
    while off < sz && i < |f|
      invariant i <= |f| && j <= |args| && WellTyped(f[i..], args[j..])
      invariant off < sz ==> rest == Pieces(f[i..], args[j..])
      invariant off <= |out| && forall k :: 0 <= k < off ==> buf[k] == out[k]
      invariant out[off..] == Written(rest, sz - off)
      invariant forall k :: off <= k < buf.Length ==> buf[k] == old(buf[k])
      decreases |f| - i
    {
      if f[i] == Percent && i + 1 == |f| {
        PiecesTrailingPercent(f, i, args, j);
        break;
      }
      off, i, j, rest := FormatStep(buf, off, sz, f, i, args, j, out);
    }
    WrittenNone(rest, sz - off);
    assert off == |out|;
    buf[off] := 0;
    assert buf[..off] == out;
  }

  /**
   * vsnprintf(buf, sz, fmt, ap): expand the C string fmt, writing characters
   * while off < sz (a number or an unknown conversion is written whole), then a
   * NUL at buf[off]; returns off as int. The buffer must hold all that is written.
   */
  method Vsnprintf(buf: array<Byte>, sz: Word, fmt: array<Byte>, args: seq<Arg>) returns (ret: int)
    requires buf != fmt && HasNul(fmt[..]) && WellTyped(CStr(fmt[..]), args)
    requires |Output(CStr(fmt[..]), args, sz)| < buf.Length
    modifies buf
    ensures var o := Output(CStr(fmt[..]), args, sz);
            ret == IntResult(|o|) && buf[..|o|] == o && buf[|o|] == 0
    ensures forall k :: |Output(CStr(fmt[..]), args, sz)| < k < buf.Length ==> buf[k] == old(buf[k])
  {
    var n := Strlen(fmt);
    var off := Format(buf, sz, fmt[..n], args);
    ret := IntResult(off);
  }

  /** snprintf: vsnprintf with the caller's size; its result goes through `int off`. */
  method Snprintf(buf: array<Byte>, sz: Word, fmt: array<Byte>, args: seq<Arg>) returns (off: int)
    requires buf != fmt && HasNul(fmt[..]) && WellTyped(CStr(fmt[..]), args)
    requires |Output(CStr(fmt[..]), args, sz)| < buf.Length
    modifies buf
    ensures var o := Output(CStr(fmt[..]), args, sz);
            off == IntResult(|o|) && buf[..|o|] == o && buf[|o|] == 0
    ensures forall k :: |Output(CStr(fmt[..]), args, sz)| < k < buf.Length ==> buf[k] == old(buf[k])
  {
    off := Vsnprintf(buf, sz, fmt, args);
  }

  /**
   * sprintf: vsnprintf with SIZE_MAX, so on a 32-bit target (no buffer longer
   * than SIZE_MAX) the whole expansion is written, followed by a NUL. The
   * count comes back as an int, negative for an expansion above INT_MAX.
   */
  method Sprintf(out: array<Byte>, fmt: array<Byte>, args: seq<Arg>) returns (off: int)
    requires out != fmt && HasNul(fmt[..]) && WellTyped(CStr(fmt[..]), args)
    requires |Expand(CStr(fmt[..]), args)| < out.Length <= SizeMax
    modifies out
    ensures var e := Expand(CStr(fmt[..]), args);
            off == IntResult(|e|) && out[..|e|] == e && out[|e|] == 0
    ensures forall k :: |Expand(CStr(fmt[..]), args)| < k < out.Length ==> out[k] == old(out[k])
  {
    OutputFacts(CStr(fmt[..]), args, SizeMax);
    off := Vsnprintf(out, SizeMax, fmt, args);
  }

  /** A number below ten prints as its single digit, which reads back as the number. */
  lemma DecimalOneDigit(x: nat)
    requires x < 10
    ensures Numeral(x, 10) == [48 + x] && KlibStdlib.DecValue([48 + x]) == x
  {
    assert Quot(x, 10) == 0 && Rem(x, 10) == x;
  }

  /** One more digit: the accumulation x = x * 10 + d inverts the division by ten. */
  lemma DecimalSnoc(x: nat)
    requires Quot(x, 10) != 0
    requires forall i :: 0 <= i < |Numeral(Quot(x, 10), 10)| ==> KlibStdlib.IsDigit(Numeral(Quot(x, 10), 10)[i])
    requires KlibStdlib.DecValue(Numeral(Quot(x, 10), 10)) == Quot(x, 10)
    ensures forall i :: 0 <= i < |Numeral(x, 10)| ==> KlibStdlib.IsDigit(Numeral(x, 10)[i])
    ensures KlibStdlib.DecValue(Numeral(x, 10)) == x
  {
    var p, r := Numeral(Quot(x, 10), 10), Rem(x, 10);
    KlibStdlib.DecValueSnoc(p, Digit(r));
    assert Numeral(x, 10) == p + [Digit(r)];
  }

  /** atoi's digit accumulation reads a decimal numeral back as the number. */
  lemma {:induction false} DecimalNumeral(x: nat)
    ensures forall i :: 0 <= i < |Numeral(x, 10)| ==> KlibStdlib.IsDigit(Numeral(x, 10)[i])
    ensures KlibStdlib.DecValue(Numeral(x, 10)) == x
    decreases x
  {
    if Quot(x, 10) == 0 {
      DecimalOneDigit(x);
    } else {
      DecimalNumeral(Quot(x, 10));
      DecimalSnoc(x);
    }
  }

  /**
   * atoi reads back what %d prints, as a C string: the number itself when it
   * is non-negative, and 0 for a negative one, since atoi takes no sign.
   */
  lemma AtoiOfPrintedInt(v: Int32)
    ensures KlibStdlib.AtoiValue(ConvText(LetterD, IntArg(v)) + [0]) == if v >= 0 then v else 0
  {
    var t := ConvText(LetterD, IntArg(v));
    if v >= 0 {
      assert t == Numeral(v, 10);
      DecimalNumeral(v);
      AtoiOfDigits(t);
    } else {
      var s := t + [0];
      assert s[0] == Minus;
      assert KlibStdlib.LeadingSpaces(s) == 0 && s[0..] == s;
      assert KlibStdlib.DigitRun(s) == 0;
    }
  }

  /** atoi of a C string made only of decimal digits is their decimal value. */
  lemma AtoiOfDigits(t: seq<Byte>)
    requires 1 <= |t| && forall i :: 0 <= i < |t| ==> KlibStdlib.IsDigit(t[i])
    ensures KlibStdlib.AtoiValue(t + [0]) == KlibStdlib.DecValue(t)
  {
    var s := t + [0];
    assert s[0] == t[0];
    assert KlibStdlib.LeadingSpaces(s) == 0 && s[0..] == s;
    KlibStdlib.DigitRunIs(s, |t|);
    assert s[..|t|] == t;
  }

  /**
   * printf as written passes BUF_SIZE to vsnprintf for a buffer of BUF_SIZE
   * bytes: the output and its NUL stay inside only when fewer than BUF_SIZE
   * characters are written.
   */
  predicate PrintfInBoundsAsWritten(f: seq<Byte>, args: seq<Arg>)
    requires WellTyped(f, args)
  {
    |Output(f, args, BufSize)| < BufSize
  }

  /** A format of 4096 plain characters makes printf as written store its NUL at buf[4096]. */
  lemma PrintfOverflowAsWritten()
    ensures var f := seq(BufSize, _ => 97);
            WellTyped(f, []) && |Output(f, [], BufSize)| == BufSize && !PrintfInBoundsAsWritten(f, [])
  {
    var f: seq<Byte> := seq(BufSize, _ => 97);
    PlainFormat(f, []);
    OutputFacts(f, [], BufSize);
  }

  /**
   * The limit printf passes to vsnprintf in this model: BUF_SIZE less the NUL
   * and less the 10 characters a number can run past the limit.
   */
  const PrintLimit: Word := BufSize - 11

  /**
   * printf: format into a zeroed stack buffer of BUF_SIZE bytes and putch each
   * of the `off` characters written; `printed` is the putch stream.
   */
  method Printf(fmt: array<Byte>, args: seq<Arg>) returns (off: nat, printed: seq<Byte>)
    requires HasNul(fmt[..]) && WellTyped(CStr(fmt[..]), args)
    ensures printed == Output(CStr(fmt[..]), args, PrintLimit) && off == |printed| && off < BufSize
    ensures |Expand(CStr(fmt[..]), args)| < PrintLimit ==> printed == Expand(CStr(fmt[..]), args)
  {
    var buf := new Byte[BufSize](_ => 0);
    OutputFacts(CStr(fmt[..]), args, PrintLimit);
    off := Vsnprintf(buf, PrintLimit, fmt, args);
    assert off == |Output(CStr(fmt[..]), args, PrintLimit)|;
    printed := [];
    var i := 0;
    while i < off
      invariant i <= off && printed == buf[..i]
    {
      printed := printed + [buf[i]];
      i := i + 1;
    }
  }
}
