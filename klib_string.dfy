/**
 * abstract-machine's klib string routines (klib/src/string.c). Memory is an
 * `array<Byte>`; a C string is an array holding a NUL byte, and its contents
 * are the bytes before the first NUL. Distinct arrays stand for
 * non-overlapping objects, and memmove's overlap case is modelled by two
 * offsets into one array. size_t is 32 bits wide (RV32).
 */
module KlibString {
  import opened Machine

  // ---------------------------------------------------------------------------
  // Specification functions on byte sequences
  // ---------------------------------------------------------------------------

  /** The sequence holds a terminating NUL somewhere. */
  predicate HasNul(s: seq<Byte>)
  {
    exists i :: 0 <= i < |s| && s[i] == 0
  }

  /** The C length: the index of the first NUL. */
  function CLen(s: seq<Byte>): (n: nat)
    requires HasNul(s)
    ensures n < |s| && s[n] == 0
    ensures forall i :: 0 <= i < n ==> s[i] != 0
  {
    if s[0] == 0 then 0
    else
      assert HasNul(s[1..]) by {
        var i :| 0 <= i < |s| && s[i] == 0;
        assert s[1..][i - 1] == 0;
      }
      1 + CLen(s[1..])
  }

  /** The characters of a C string, without its NUL. */
  function CStr(s: seq<Byte>): (r: seq<Byte>)
    requires HasNul(s)
    ensures |r| == CLen(s) && r == s[..CLen(s)]
    ensures forall i :: 0 <= i < |r| ==> r[i] != 0
  {
    s[..CLen(s)]
  }

  /** The first n bytes may be read: either they exist, or a NUL stops the reader first. */
  predicate Readable(s: seq<Byte>, n: nat)
  {
    n <= |s| || HasNul(s)
  }

  /** strnlen: the index of the first NUL among the first n bytes, or n when there is none. */
  function StrnLen(s: seq<Byte>, n: nat): (r: nat)
    requires Readable(s, n)
    ensures r <= n && r <= |s|
    ensures r < n ==> r < |s| && s[r] == 0
    ensures forall i :: 0 <= i < r ==> s[i] != 0
  {
    if n == 0 then 0
    else if s[0] == 0 then 0
    else
      assert Readable(s[1..], n - 1) by {
        if !(n <= |s|) {
          var i :| 0 <= i < |s| && s[i] == 0;
          assert s[1..][i - 1] == 0;
        }
      }
      1 + StrnLen(s[1..], n - 1)
  }

  /** The first n bytes of a C string, cut at its NUL: what strncmp compares. */
  function Bounded(s: seq<Byte>, n: nat): seq<Byte>
    requires Readable(s, n)
  {
    s[..StrnLen(s, n)]
  }

  function Zeros(n: nat): (z: seq<Byte>)
    ensures |z| == n && forall i :: 0 <= i < n ==> z[i] == 0
  {
    seq(n, _ => 0)
  }

  /** The C conversion `(uint8_t)*p - (uint8_t)*q`: the difference of two unsigned bytes. */
  function ByteDiff(a: Byte, b: Byte): (d: int)
    ensures -255 <= d <= 255 && (d == 0 <==> a == b)
  {
    a - b
  }

  /** Two byte strings first differ at i, and r is the difference of the bytes there. */
  predicate DiffersFirstAt(p: seq<Byte>, q: seq<Byte>, i: nat, r: int)
  {
    i < |p| && i < |q| && p[..i] == q[..i] && p[i] != q[i] && r == ByteDiff(p[i], q[i])
  }

  // ---------------------------------------------------------------------------
  // Length and copying
  // ---------------------------------------------------------------------------

  /** strlen: the least n with s[n] == 0. */
  method Strlen(s: array<Byte>) returns (n: nat)
    requires HasNul(s[..])
    ensures n == CLen(s[..])
    ensures n < s.Length && s[n] == 0 && forall i :: 0 <= i < n ==> s[i] != 0
  {
    n := 0;
    while s[n] != 0
      invariant n <= CLen(s[..])
      decreases CLen(s[..]) - n
    {
      n := n + 1;
    }
  }

  /**
   * strcpy: copy src up to and including its NUL into dst and return dst. dst
   * keeps its bytes past the copied NUL.
   */
  method Strcpy(dst: array<Byte>, src: array<Byte>) returns (r: array<Byte>)
    requires dst != src && HasNul(src[..]) && CLen(src[..]) < dst.Length
    modifies dst
    ensures r == dst
    ensures dst[..CLen(src[..]) + 1] == src[..CLen(src[..]) + 1]
    ensures dst[CLen(src[..]) + 1..] == old(dst[CLen(src[..]) + 1..])
    ensures HasNul(dst[..]) && CStr(dst[..]) == CStr(src[..])
  {
    ghost var len := CLen(src[..]);
    CopyThroughNul(dst, 0, src);
    assert dst[..len + 1] == src[..len + 1] by {
      assert dst[..len + 1] == dst[0..0 + len + 1];
    }
    assert dst[len + 1..] == old(dst[len + 1..]);
    CLenAt(dst[..], len);
    r := dst;
  }

  /** A NUL at k with no NUL before it fixes the C length at k. */
  lemma CLenAt(a: seq<Byte>, k: nat)
    requires k < |a| && a[k] == 0 && forall i :: 0 <= i < k ==> a[i] != 0
    ensures HasNul(a) && CLen(a) == k && CStr(a) == a[..k]
  {
  }

  /**
   * strncpy, corrected: write exactly n bytes of dst, namely src's first bytes
   * up to its NUL (at most n of them) and then zeros, as section 7.24.2.4 of the
   * C standard requires. The as-written loop counter is `StrncpyRemainingAsWritten`.
   */
  method Strncpy(dst: array<Byte>, src: array<Byte>, n: Word) returns (r: array<Byte>)
    requires dst != src && Readable(src[..], n) && n <= dst.Length
    modifies dst
    ensures r == dst
    ensures dst[..n] == src[..StrnLen(src[..], n)] + Zeros(n - StrnLen(src[..], n))
    ensures dst[n..] == old(dst[n..])
  {
    ghost var k := StrnLen(src[..], n);
    var i := 0;
    while i < n && src[i] != 0
      invariant 0 <= i <= k
      invariant dst[..i] == src[..i]
      invariant dst[n..] == old(dst[n..])
      decreases n - i
    {
      dst[i] := src[i];
      i := i + 1;
    }
    assert i == k;
    while i < n
      invariant k <= i <= n
      invariant dst[..k] == src[..k]
      invariant forall j :: k <= j < i ==> dst[j] == 0
      invariant dst[n..] == old(dst[n..])
    {
      dst[i] := 0;
      i := i + 1;
    }
    assert dst[..n] == src[..k] + Zeros(n - k) by {
      assert dst[..n][..k] == dst[..k];
    }
    r := dst;
  }

  /**
   * strncpy's counter as written: the value of the size_t `n` when the copy loop
   * `while (n-- > 0 && (*dst++ = *src++) != 0)` exits, i.e. the number of zero bytes
   * the pad loop then writes. The failing `n-- > 0` test on n == 0 wraps n to
   * 2^32 - 1.
   */
  function StrncpyRemainingAsWritten(s: seq<Byte>, n: Word): (rem: Word)
    requires Readable(s, n)
    decreases n
  {
    if n == 0 then Wrap(n - 1)
    else if s[0] == 0 then n - 1
    else
      assert Readable(s[1..], n - 1) by {
        if !(n <= |s|) {
          var i :| 0 <= i < |s| && s[i] == 0;
          assert s[1..][i - 1] == 0;
        }
      }
      StrncpyRemainingAsWritten(s[1..], n - 1)
  }

  /**
   * When src's NUL lies within the first n bytes, the as-written loops write
   * exactly n bytes: StrnLen(s, n) + 1 copied, then the remainder as zeros.
   */
  lemma {:induction false} StrncpyAsWrittenShortSource(s: seq<Byte>, n: Word)
    requires Readable(s, n) && StrnLen(s, n) < n
    ensures StrnLen(s, n) + 1 + StrncpyRemainingAsWritten(s, n) == n
  {
    if s[0] != 0 {
      assert Readable(s[1..], n - 1) by {
        if !(n <= |s|) {
          var i :| 0 <= i < |s| && s[i] == 0;
          assert s[1..][i - 1] == 0;
        }
      }
      StrncpyAsWrittenShortSource(s[1..], n - 1);
    }
  }

  /**
   * When src has no NUL within the first n bytes, the as-written pad loop runs
   * 2^32 - 1 times, far beyond the n bytes of dst.
   */
  lemma {:induction false} StrncpyAsWrittenOverrun(s: seq<Byte>, n: Word)
    requires Readable(s, n) && StrnLen(s, n) == n
    ensures StrncpyRemainingAsWritten(s, n) == 0xFFFF_FFFF
  {
    if n != 0 {
      assert Readable(s[1..], n - 1);
      StrncpyAsWrittenOverrun(s[1..], n - 1);
    }
  }

  /** strncpy(dst, "A", 1): one byte is requested, the as-written pad loop writes 2^32 - 1 more. */
  lemma StrncpyAsWrittenCounterexample()
    ensures StrncpyRemainingAsWritten([65, 0], 1) == 0xFFFF_FFFF
  {
    assert [65, 0][1..] == [0 as Byte];
  }

  /**
   * The loop `while ((*dst++ = *src++) != 0);` shared by strcpy and strcat:
   * copy src up to and including its NUL to dst[at..], writing nothing else.
   */
  method CopyThroughNul(dst: array<Byte>, at: nat, src: array<Byte>)
    requires dst != src && HasNul(src[..]) && at + CLen(src[..]) < dst.Length
    modifies dst
    ensures dst[at..at + CLen(src[..]) + 1] == src[..CLen(src[..]) + 1]
    ensures forall j :: 0 <= j < dst.Length && !(at <= j <= at + CLen(src[..])) ==> dst[j] == old(dst[j])
  {
    ghost var s := CLen(src[..]);
    var i := 0;
    while true
      invariant 0 <= i <= s
      invariant forall j :: 0 <= j < dst.Length && !(at <= j < at + i) ==> dst[j] == old(dst[j])
      invariant forall j :: 0 <= j < i ==> dst[at + j] == src[j]
      decreases s - i
    {
      dst[at + i] := src[i];
      if src[i] == 0 {
        break;
      }
      i := i + 1;
    }
  }

  /** The memory strcat leaves: a's string, then b's string and NUL, then a's remaining bytes. */
  function Concatenated(a: seq<Byte>, b: seq<Byte>): (r: seq<Byte>)
    requires HasNul(a) && HasNul(b) && CLen(a) + CLen(b) < |a|
    ensures |r| == |a|
  {
    CStr(a) + b[..CLen(b) + 1] + a[CLen(a) + CLen(b) + 1..]
  }

  /** The concatenated memory holds the concatenation of the two strings. */
  lemma ConcatenatedString(a: seq<Byte>, b: seq<Byte>)
    requires HasNul(a) && HasNul(b) && CLen(a) + CLen(b) < |a|
    ensures HasNul(Concatenated(a, b))
    ensures CStr(Concatenated(a, b)) == CStr(a) + CStr(b)
  {
    var r := Concatenated(a, b);
    var d, s := CLen(a), CLen(b);
    var head, tail := CStr(a), b[..s + 1];
    assert r == head + tail + a[d + s + 1..];
    forall i | 0 <= i < d + s
      ensures r[i] != 0
    {
      if i < d {
        assert r[i] == head[i];
      } else {
        assert r[i] == tail[i - d] == b[i - d];
      }
    }
    assert r[d + s] == tail[s] == 0;
    CLenAt(r, d + s);
    assert r[..d + s] == head + CStr(b);
  }

  /** strcat: append src, including its NUL, at dst's NUL and return dst. */
  method Strcat(dst: array<Byte>, src: array<Byte>) returns (r: array<Byte>)
    requires dst != src && HasNul(dst[..]) && HasNul(src[..])
    requires CLen(dst[..]) + CLen(src[..]) < dst.Length
    modifies dst
    ensures r == dst
    ensures dst[..] == Concatenated(old(dst[..]), src[..])
  {
    ghost var before := dst[..];
    var d := Strlen(dst);
    ghost var s := CLen(src[..]);
    CopyThroughNul(dst, d, src);
    ghost var want := Concatenated(before, src[..]);
    forall j | 0 <= j < dst.Length
      ensures dst[j] == want[j]
    {
      if d <= j <= d + s {
        assert dst[j] == dst[d..d + s + 1][j - d];
      }
    }
    assert dst[..] == want;
    r := dst;
  }

  // ---------------------------------------------------------------------------
  // Comparison
  // ---------------------------------------------------------------------------

  /**
   * strcmp: 0 exactly when the two strings are equal; otherwise the unsigned
   * difference of the bytes at the first position where they differ (a NUL
   * counts as a byte, so a proper prefix compares below).
   */
  method Strcmp(p: array<Byte>, q: array<Byte>) returns (r: int)
    requires HasNul(p[..]) && HasNul(q[..])
    ensures r == 0 <==> CStr(p[..]) == CStr(q[..])
    ensures r != 0 ==> exists i: nat :: i <= CLen(p[..]) && i <= CLen(q[..]) && DiffersFirstAt(p[..], q[..], i, r)
  {
    var i := 0;
    while p[i] != 0 && p[i] == q[i]
      invariant i <= CLen(p[..]) && i <= CLen(q[..])
      invariant p[..i] == q[..i]
      decreases CLen(p[..]) - i
    {
      i := i + 1;
    }
    r := ByteDiff(p[i], q[i]);
    if r == 0 {
      assert CLen(p[..]) == i && CLen(q[..]) == i;
      assert CStr(p[..]) == p[..i];
    } else {
      assert DiffersFirstAt(p[..], q[..], i, r);
      if i < CLen(p[..]) && i < CLen(q[..]) {
        assert CStr(p[..])[i] != CStr(q[..])[i];
      }
    }
  }

  /**
   * strncmp: as strcmp, but looking at no more than the first n bytes; 0 when
   * those agree.
   */
  method Strncmp(p: array<Byte>, q: array<Byte>, n: Word) returns (r: int)
    requires Readable(p[..], n) && Readable(q[..], n)
    ensures r == 0 <==> Bounded(p[..], n) == Bounded(q[..], n)
    ensures r != 0 ==> exists i: nat :: i < n && DiffersFirstAt(p[..], q[..], i, r)
  {
    var k := 0;
    while k < n && p[k] != 0 && p[k] == q[k]
      invariant k <= StrnLen(p[..], n) && k <= StrnLen(q[..], n)
      invariant p[..k] == q[..k]
      decreases n - k
    {
      k := k + 1;
    }
    if k == n {
      return 0;
    }
    r := ByteDiff(p[k], q[k]);
    if r == 0 {
      assert StrnLen(p[..], n) == k && StrnLen(q[..], n) == k;
    } else {
      assert DiffersFirstAt(p[..], q[..], k, r);
      if k < StrnLen(p[..], n) && k < StrnLen(q[..], n) {
        assert Bounded(p[..], n)[k] != Bounded(q[..], n)[k];
      }
    }
  }

  /**
   * memcmp: 0 exactly when the first n bytes agree; otherwise the difference of
   * the first differing bytes.
   */
  method Memcmp(a: array<Byte>, b: array<Byte>, n: Word) returns (r: int)
    requires n <= a.Length && n <= b.Length
    ensures r == 0 <==> a[..n] == b[..n]
    ensures r != 0 ==> exists i: nat :: i < n && DiffersFirstAt(a[..], b[..], i, r)
  {
    var i := 0;
    while i < n
      invariant i <= n && a[..i] == b[..i]
    {
      if a[i] != b[i] {
        r := ByteDiff(a[i], b[i]);
        assert DiffersFirstAt(a[..], b[..], i, r);
        assert a[..n][i] != b[..n][i];
        return;
      }
      i := i + 1;
    }
    r := 0;
  }

  // ---------------------------------------------------------------------------
  // Filling and moving memory
  // ---------------------------------------------------------------------------

  /** memset: bytes 0 .. n-1 become `(char)c`, the low byte of c; nothing else changes. */
  method Memset(dst: array<Byte>, c: int, n: Word) returns (r: array<Byte>)
    requires n <= dst.Length
    modifies dst
    ensures r == dst
    ensures forall i :: 0 <= i < n ==> dst[i] == c % 256
    ensures dst[n..] == old(dst[n..])
  {
    var i := 0;
    while i < n
      invariant i <= n
      invariant forall j :: 0 <= j < i ==> dst[j] == c % 256
      invariant dst[n..] == old(dst[n..])
    {
      dst[i] := c % 256;
      i := i + 1;
    }
    r := dst;
  }

  /**
   * memmove within one memory `mem`: afterwards mem[dst .. dst+n) holds what
   * mem[src .. src+n) held before, even when the two ranges overlap, and no
   * other byte changes. The copy runs forwards when src lies above dst and
   * backwards otherwise. The result is dst.
   */
  method Memmove(mem: array<Byte>, dst: nat, src: nat, n: Word) returns (r: nat)
    requires dst + n <= mem.Length && src + n <= mem.Length
    modifies mem
    ensures r == dst
    ensures mem[dst..dst + n] == old(mem[src..src + n])
    ensures forall k :: 0 <= k < mem.Length && !(dst <= k < dst + n) ==> mem[k] == old(mem[k])
  {
    ghost var before := mem[..];
    assert |before| == mem.Length;
    if src > dst {
      var i := 0;
      while i < n
        invariant 0 <= i <= n
        invariant forall k :: dst <= k < dst + i ==> mem[k] == before[k - dst + src]
        invariant forall k :: 0 <= k < mem.Length && !(dst <= k < dst + i) ==> mem[k] == before[k]
      {
        mem[dst + i] := mem[src + i];
        i := i + 1;
      }
    } else {
      var i := n;
      while i > 0
        invariant 0 <= i <= n
        invariant forall k :: dst + i <= k < dst + n ==> mem[k] == before[k - dst + src]
        invariant forall k :: 0 <= k < mem.Length && !(dst + i <= k < dst + n) ==> mem[k] == before[k]
      {
        i := i - 1;
        mem[dst + i] := mem[src + i];
      }
    }
    assert mem[dst..dst + n] == before[src..src + n];
    r := dst;
  }

  /** memcpy is memmove. */
  method Memcpy(mem: array<Byte>, dst: nat, src: nat, n: Word) returns (r: nat)
    requires dst + n <= mem.Length && src + n <= mem.Length
    modifies mem
    ensures r == dst
    ensures mem[dst..dst + n] == old(mem[src..src + n])
    ensures forall k :: 0 <= k < mem.Length && !(dst <= k < dst + n) ==> mem[k] == old(mem[k])
  {
    r := Memmove(mem, dst, src, n);
  }
}
