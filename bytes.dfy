/** Fixed-width machine integers, little-endian byte codecs and the byte
    buffer operations (overwrite, NUL-terminated name comparison) that the
    deploy tool performs on the kernel image and on the module file. */
module Bytes {

  const TWO_8: int := 0x100
  const TWO_31: int := 0x8000_0000
  const TWO_32: int := 0x1_0000_0000
  const TWO_63: int := 0x8000_0000_0000_0000
  const TWO_64: int := 0x1_0000_0000_0000_0000

  type byte = x: int | 0 <= x < TWO_8
  type U32 = x: int | 0 <= x < TWO_32
  type U64 = x: int | 0 <= x < TWO_64
  type I32 = x: int | -TWO_31 <= x < TWO_31
  type I64 = x: int | -TWO_63 <= x < TWO_63

  /** Conversion to a 64-bit unsigned integer (C's conversion to uint64_t /
      uintptr_t, and the wrap-around of their arithmetic). */
  function Wrap64(x: int): (r: U64)
  {
    x % TWO_64
  }

  /** A value already in range is its own reduction. */
  lemma WrapSmall(x: int)
    requires 0 <= x < TWO_64
    ensures Wrap64(x) == x
  {
  }

  /** A value is its quotient by 2^64 times 2^64 plus its reduction. */
  lemma Reduce(a: int)
    ensures a == (a / TWO_64) * TWO_64 + Wrap64(a)
  {
  }

  /** The same split, with the quotient returned as a plain value. */
  lemma Quotient(a: int) returns (q: int)
    ensures a == q * TWO_64 + Wrap64(a)
  {
    q := a / TWO_64;
  }

  /** Moving a pointer p by (p - l - b) and then back by p leaves the
      offset of d from l + b, all modulo 2^64. */
  lemma WrapRebase(p: int, l: int, b: int, d: int)
    ensures Wrap64(Wrap64(Wrap64(Wrap64(p - l) - b) + d) - p) == Wrap64(d - Wrap64(l + b))
  {
    var x := Wrap64(p - l);
    var k := Wrap64(x - b);
    var y := Wrap64(k + d);
    assert Wrap64(y - p) == Wrap64(k + (d - p)) by {
      WrapStep(k + d, 0 - p);
    }
    assert Wrap64(k + (d - p)) == Wrap64(x + (d - p - b)) by {
      WrapStep(x - b, d - p);
    }
    assert Wrap64(x + (d - p - b)) == Wrap64(d - (l + b)) by {
      WrapStep(p - l, d - p - b);
    }
    WrapSubRight(l + b, d);
  }

  /** Adding a reduced difference is adding the difference. */
  lemma WrapAddDiff(b: int, a: int, s: int)
    ensures Wrap64(b + Wrap64(a - s)) == Wrap64(b + a - s)
  {
    WrapStep(a - s, b);
  }

  /** Walking forward from begin by at most the wrapped distance to end
      meets end only after the whole distance. */
  lemma WrapReaches(begin: U64, end: U64, x: int)
    requires 0 <= x <= Wrap64(end - begin)
    ensures Wrap64(begin + x) == end <==> x == Wrap64(end - begin)
  {
    WrapDiff(end, begin);
  }

  /** Reduction modulo 2^64 of a value split as q * 2^64 + r. */
  lemma WordSplit(a: int, q: int, r: int)
    requires 0 <= r < TWO_64 && a == q * TWO_64 + r
    ensures Wrap64(a) == r
  {
  }

  /** uintptr_t subtraction and addition wrap by at most one word. */
  lemma WrapDiff(x: U64, y: U64)
    ensures Wrap64(x - y) == if x >= y then x - y else x - y + TWO_64
  {
  }

  lemma WrapSum(x: U64, y: U64)
    ensures Wrap64(x + y) == if x + y < TWO_64 then x + y else x + y - TWO_64
  {
  }

  /** Reducing an operand first does not change a reduced sum or
      difference. */
  lemma WrapStep(a: int, b: int)
    ensures Wrap64(Wrap64(a) + b) == Wrap64(a + b)
  {
    var r := Wrap64(Wrap64(a) + b);
    var q1 := (Wrap64(a) + b) / TWO_64;
    var q0 := a / TWO_64;
    assert Wrap64(a) + b == q1 * TWO_64 + r;
    assert a == q0 * TWO_64 + Wrap64(a);
    WordSplit(a + b, q0 + q1, r);
  }

  /** Subtraction commutes with reduction modulo 2^64. */
  lemma WrapSub(x: int, y: int)
    ensures Wrap64(Wrap64(x) - Wrap64(y)) == Wrap64(x - y)
  {
    var r := Wrap64(x - y);
    var q := (x - y) / TWO_64;
    var qx := x / TWO_64;
    var qy := y / TWO_64;
    assert x - y == q * TWO_64 + r;
    assert x == qx * TWO_64 + Wrap64(x);
    assert y == qy * TWO_64 + Wrap64(y);
    WordSplit(Wrap64(x) - Wrap64(y), q - qx + qy, r);
  }

  lemma WrapSubRight(a: int, b: int)
    ensures Wrap64(b - Wrap64(a)) == Wrap64(b - a)
  {
    var q := a / TWO_64;
    assert a == q * TWO_64 + Wrap64(a);
    var w := Wrap64(b - a);
    var k := (b - a) / TWO_64;
    assert b - a == k * TWO_64 + w;
    WordSplit(b - Wrap64(a), k + q, w);
  }

  /** Conversion to a two's-complement 32-bit signed integer (C's
      conversion to int32_t, which keeps the low 32 bits). */
  function ToI32(x: int): (r: I32)
    ensures (x - r) % TWO_32 == 0
    ensures -TWO_31 <= x < TWO_31 ==> r == x
  {
    var u := x % TWO_32;
    if u < TWO_31 then u else u - TWO_32
  }

  /** Reinterpreting the low 32 bits as unsigned (uint32_t). */
  function ToU32(x: int): (r: U32)
    ensures (x - r) % TWO_32 == 0
    ensures 0 <= x < TWO_32 ==> r == x
  {
    x % TWO_32
  }

  lemma {:induction false} WrapI32Twice(x: int, d: int)
    ensures ToI32(ToI32(x) + d) == ToI32(x + d)
  {
    var u := x % TWO_32;
    var k := x / TWO_32;
    assert x == k * TWO_32 + u;
    var y := ToI32(x);
    assert y == x - k * TWO_32 || y == x - k * TWO_32 - TWO_32;
    ModShift(x + d, y + d, if y == x - k * TWO_32 then k else k + 1);
  }

  lemma ModShift(a: int, b: int, k: int)
    requires b == a - k * TWO_32
    ensures a % TWO_32 == b % TWO_32
  {
  }

  // ---------------------------------------------------------------------------
  // Little-endian codec

  function Pow256(n: nat): (p: nat)
    ensures p >= 1
  {
    if n == 0 then 1 else 256 * Pow256(n - 1)
  }

  /** The unsigned value of a little-endian byte string. */
  function DecodeLE(bs: seq<byte>): (v: nat)
    ensures v < Pow256(|bs|)
  {
    if |bs| == 0 then 0 else bs[0] + 256 * DecodeLE(bs[1..])
  }

  /** The n low-order bytes of v, least significant first. */
  function EncodeLE(v: nat, n: nat): (bs: seq<byte>)
    ensures |bs| == n
  {
    if n == 0 then [] else [v % 256] + EncodeLE(v / 256, n - 1)
  }

  lemma {:induction false} DecodeEncodeLE(v: nat, n: nat)
    requires v < Pow256(n)
    ensures DecodeLE(EncodeLE(v, n)) == v
  {
    if n > 0 {
      var bs := EncodeLE(v, n);
      assert bs[1..] == EncodeLE(v / 256, n - 1);
      DecodeEncodeLE(v / 256, n - 1);
    }
  }

  lemma {:induction false} EncodeDecodeLE(bs: seq<byte>)
    ensures EncodeLE(DecodeLE(bs), |bs|) == bs
  {
    if |bs| > 0 {
      var v := DecodeLE(bs);
      assert v % 256 == bs[0] && v / 256 == DecodeLE(bs[1..]);
      EncodeDecodeLE(bs[1..]);
    }
  }

  lemma Pow256Eight()
    ensures Pow256(8) == TWO_64
    ensures Pow256(4) == TWO_32
  {
  }

  /** The 8 bytes of a 64-bit word as stored in memory on both targets. */
  function LE64(v: U64): (bs: seq<byte>)
    ensures |bs| == 8
  {
    EncodeLE(v, 8)
  }

  /** The little-endian 64-bit word at buffer offset off, written out
      byte by byte (see ReadU64IsDecodeLE). */
  function ReadU64(s: seq<byte>, off: nat): (v: U64)
    requires off + 8 <= |s|
  {
    (s[off] as int) + 0x100 * (s[off + 1] as int) + 0x1_0000 * (s[off + 2] as int)
    + 0x100_0000 * (s[off + 3] as int) + 0x1_0000_0000 * (s[off + 4] as int)
    + 0x100_0000_0000 * (s[off + 5] as int) + 0x1_0000_0000_0000 * (s[off + 6] as int)
    + 0x100_0000_0000_0000 * (s[off + 7] as int)
  }

  /** Decoding a slice peels off its first byte. */
  lemma DecodeSlice(s: seq<byte>, a: nat, b: nat)
    requires a < b <= |s|
    ensures DecodeLE(s[a..b]) == s[a] + 256 * DecodeLE(s[a + 1..b])
  {
    assert s[a..b][1..] == s[a + 1..b];
  }

  /** ReadU64 is the little-endian decoding of the word's eight bytes. */
  lemma ReadU64IsDecodeLE(s: seq<byte>, off: nat)
    requires off + 8 <= |s|
    ensures ReadU64(s, off) == DecodeLE(s[off..off + 8])
  {
    var e := off + 8;
    var d7 := DecodeLE(s[off + 7..e]);
    assert d7 == s[off + 7] by {
      DecodeSlice(s, off + 7, e);
      assert DecodeLE(s[e..e]) == 0;
    }
    var d6 := DecodeLE(s[off + 6..e]);
    assert d6 == s[off + 6] + 256 * d7 by { DecodeSlice(s, off + 6, e); }
    var d5 := DecodeLE(s[off + 5..e]);
    assert d5 == s[off + 5] + 256 * d6 by { DecodeSlice(s, off + 5, e); }
    var d4 := DecodeLE(s[off + 4..e]);
    assert d4 == s[off + 4] + 256 * d5 by { DecodeSlice(s, off + 4, e); }
    var d3 := DecodeLE(s[off + 3..e]);
    assert d3 == s[off + 3] + 256 * d4 by { DecodeSlice(s, off + 3, e); }
    var d2 := DecodeLE(s[off + 2..e]);
    assert d2 == s[off + 2] + 256 * d3 by { DecodeSlice(s, off + 2, e); }
    var d1 := DecodeLE(s[off + 1..e]);
    assert d1 == s[off + 1] + 256 * d2 by { DecodeSlice(s, off + 1, e); }
    assert DecodeLE(s[off..e]) == s[off] + 256 * d1 by { DecodeSlice(s, off, e); }
  }

  function ReadU32(s: seq<byte>, off: nat): (v: U32)
    requires off + 4 <= |s|
  {
    Pow256Eight();
    DecodeLE(s[off..off + 4])
  }

  function ReadU16(s: seq<byte>, off: nat): (v: nat)
    requires off + 2 <= |s|
    ensures v < 0x1_0000
  {
    DecodeLE(s[off..off + 2])
  }

  /** A word read from the buffer is stored back as the same bytes. */
  lemma ReadU64Bytes(s: seq<byte>, off: nat)
    requires off + 8 <= |s|
    ensures LE64(ReadU64(s, off)) == s[off..off + 8]
  {
    ReadU64IsDecodeLE(s, off);
    EncodeDecodeLE(s[off..off + 8]);
  }

  lemma ReadLE64(v: U64)
    ensures ReadU64(LE64(v), 0) == v
  {
    ReadU64IsDecodeLE(LE64(v), 0);
    Pow256Eight();
    DecodeEncodeLE(v, 8);
    assert LE64(v)[0..8] == LE64(v);
  }

  /** A word whose eight bytes are LE64(v) reads as v. */
  lemma ReadStored(s: seq<byte>, off: nat, v: U64)
    requires off + 8 <= |s| && s[off..off + 8] == LE64(v)
    ensures ReadU64(s, off) == v
  {
    ReadU64IsDecodeLE(s, off);
    Pow256Eight();
    DecodeEncodeLE(v, 8);
  }

  /** s[a..][b..] is s[a + b..]. */
  lemma DropDrop<T>(s: seq<T>, a: nat, b: nat)
    requires a + b <= |s|
    ensures s[a..][b..] == s[a + b..]
  {
  }

  // ---------------------------------------------------------------------------
  // In-place edits, described on the buffer's contents

  /** The buffer after the bytes at [off, off + |f|) are replaced by f
      (a memcpy into the buffer). */
  function Overwrite(s: seq<byte>, off: nat, f: seq<byte>): (r: seq<byte>)
    requires off + |f| <= |s|
    ensures |r| == |s|
    ensures r[off..off + |f|] == f
    ensures forall j :: 0 <= j < |s| && !(off <= j < off + |f|) ==> r[j] == s[j]
  {
    seq(|s|, j requires 0 <= j < |s| => if off <= j < off + |f| then f[j - off] else s[j])
  }

  /** memcpy(buffer + off, f, |f|) on a fixed-size buffer. */
  method Store(a: array<byte>, off: nat, f: seq<byte>)
    requires off + |f| <= a.Length
    modifies a
    ensures a[..] == Overwrite(old(a[..]), off, f)
  {
    ghost var s := a[..];
    forall j | 0 <= j < |f| {
      a[off + j] := f[j];
    }
    ghost var r := Overwrite(s, off, f);
    assert forall j :: off <= j < off + |f| ==> r[j] == r[off..off + |f|][j - off];
    assert a[..] == r;
  }

  /** A 64-bit word stored with Overwrite reads back unchanged. */
  lemma {:induction false} ReadOverwritten(s: seq<byte>, off: nat, v: U64)
    requires off + 8 <= |s|
    ensures ReadU64(Overwrite(s, off, LE64(v)), off) == v
  {
    var r := Overwrite(s, off, LE64(v));
    ReadU64IsDecodeLE(r, off);
    Pow256Eight();
    DecodeEncodeLE(v, 8);
    assert r[off..off + 8] == LE64(v);
  }

  /** A word that does not overlap an overwritten range keeps its value. */
  lemma {:induction false} ReadDisjoint(s: seq<byte>, off: nat, f: seq<byte>, at: nat)
    requires off + |f| <= |s| && at + 8 <= |s|
    requires at + 8 <= off || off + |f| <= at
    ensures ReadU64(Overwrite(s, off, f), at) == ReadU64(s, at)
  {
    var r := Overwrite(s, off, f);
    assert r[at..at + 8] == s[at..at + 8];
  }

  // ---------------------------------------------------------------------------
  // NUL-terminated names

  predicate NulFree(q: seq<byte>)
  {
    forall j :: 0 <= j < |q| ==> q[j] != 0
  }

  /** The C string stored at buffer offset a compares equal to q: the bytes
      of q followed by a NUL, all inside the buffer. Where the source would
      read past the end of the buffer to find the terminator, the model
      counts the comparison as a mismatch. */
  predicate NameAt(s: seq<byte>, a: int, q: seq<byte>)
  {
    && NulFree(q)
    && 0 <= a
    && a + |q| < |s|
    && s[a..a + |q|] == q
    && s[a + |q|] == 0
  }

  /** The C string starting at offset a: the bytes up to the first NUL, or
      up to the end of the buffer when there is none. */
  function CStringAt(s: seq<byte>, a: nat): (r: seq<byte>)
    requires a <= |s|
    ensures a + |r| <= |s|
    ensures r == s[a..a + |r|]
    ensures NulFree(r)
    ensures a + |r| == |s| || s[a + |r|] == 0
    decreases |s| - a
  {
    if a == |s| || s[a] == 0 then [] else [s[a]] + CStringAt(s, a + 1)
  }

  /** A C string depends only on the bytes from its start on. */
  lemma {:induction false} CStringFrom(s: seq<byte>, t: seq<byte>, a: nat)
    requires a <= |s| == |t| && s[a..] == t[a..]
    ensures CStringAt(s, a) == CStringAt(t, a)
    decreases |s| - a
  {
    if a < |s| {
      assert s[a] == s[a..][0] && t[a] == t[a..][0];
      assert s[a + 1..] == s[a..][1..] && t[a + 1..] == t[a..][1..];
      CStringFrom(s, t, a + 1);
    }
  }

  /** A C string starting at or after e depends only on the bytes from e
      on. */
  lemma CStringSameTail(s: seq<byte>, t: seq<byte>, e: nat, a: nat)
    requires e <= a <= |s| == |t| && s[e..] == t[e..]
    ensures CStringAt(s, a) == CStringAt(t, a)
  {
    DropDrop(s, e, a - e);
    DropDrop(t, e, a - e);
    CStringFrom(s, t, a);
  }

  /** Comparing the stored C string with a NUL-free query is NameAt. */
  lemma NameAtIsCString(s: seq<byte>, a: nat, q: seq<byte>)
    requires a <= |s| && NulFree(q)
    ensures NameAt(s, a, q) <==> (a + |CStringAt(s, a)| < |s| && CStringAt(s, a) == q)
  {
    var c := CStringAt(s, a);
    if NameAt(s, a, q) {
      assert c == s[a..a + |c|];
      assert c == q;
    }
  }

  // ---------------------------------------------------------------------------
  // Bitwise operations on non-negative integers

  function Pow2(n: nat): (p: nat)
    ensures p >= 1
  {
    if n == 0 then 1 else 2 * Pow2(n - 1)
  }

  /** Bitwise OR of the low w bits of a and b. */
  function BitOr(a: nat, b: nat, w: nat): (r: nat)
    ensures r < Pow2(w)
  {
    if w == 0 then 0
    else (if a % 2 == 1 || b % 2 == 1 then 1 else 0) + 2 * BitOr(a / 2, b / 2, w - 1)
  }

  lemma {:induction false} Pow2Add(a: nat, b: nat)
    ensures Pow2(a + b) == Pow2(a) * Pow2(b)
  {
    if a > 0 {
      Pow2Add(a - 1, b);
    }
  }

  lemma Pow2Values()
    ensures Pow2(16) == 0x1_0000 && Pow2(24) == 0x100_0000 && Pow2(32) == TWO_32
    ensures Pow2(48) == 0x1_0000_0000_0000 && Pow2(64) == TWO_64
  {
    assert Pow2(8) == 256;
    Pow2Add(8, 8);
    Pow2Add(16, 8);
    Pow2Add(16, 16);
    Pow2Add(32, 16);
    Pow2Add(32, 32);
  }

  lemma {:induction false} BitOrZero(a: nat, w: nat)
    requires a < Pow2(w)
    ensures BitOr(a, 0, w) == a
  {
    if w > 0 {
      BitOrZero(a / 2, w - 1);
    }
  }

  /** OR of a multiple of 2^k with a value below 2^k is their sum. */
  lemma {:induction false} BitOrDisjoint(q: nat, b: nat, k: nat, w: nat)
    requires k <= w
    requires b < Pow2(k) && q * Pow2(k) + b < Pow2(w)
    ensures BitOr(q * Pow2(k), b, w) == q * Pow2(k) + b
  {
    if k == 0 {
      BitOrZero(q * Pow2(k), w);
    } else {
      var w1: nat := w - 1;
      var pk := Pow2(k - 1);
      var y: nat := q * pk;
      var x: nat := q * Pow2(k);
      var h := b / 2;
      assert x == 2 * y by { assert Pow2(k) == 2 * pk; }
      assert b == 2 * h + b % 2;
      assert h < pk;
      assert y + h < Pow2(w1) by { assert Pow2(w) == 2 * Pow2(w1); }
      BitOrDisjoint(q, h, k - 1, w1);
      var r := BitOr(y, h, w1);
      assert x / 2 == y && x % 2 == 0;
      assert BitOr(x, b, w) == b % 2 + 2 * r;
    }
  }
}
