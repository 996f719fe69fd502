/** Machine words as integers: wrap-around, sign extension, truncating division and
    the bitwise operations the C++ code applies to unsigned words. */
module Words {

  const TWO8: nat := 0x100
  const TWO12: nat := 0x1000
  const TWO14: nat := 0x4000
  const TWO16: nat := 0x1_0000
  const TWO19: nat := 0x8_0000
  const TWO20: nat := 0x10_0000
  const TWO21: nat := 0x20_0000
  const TWO24: nat := 0x100_0000
  const TWO26: nat := 0x400_0000
  const TWO32: nat := 0x1_0000_0000
  const TWO64: nat := 0x1_0000_0000_0000_0000

  type U8 = x: nat | x < TWO8
  type U16 = x: nat | x < TWO16
  type U32 = x: nat | x < TWO32
  type U64 = x: nat | x < TWO64

  /** Conversion of any integer to an unsigned 64-bit word. */
  function Wrap64(x: int): U64 { x % TWO64 }

  /** Two's complement reading of the low bits `v` of a field with `modulus` values. */
  function SignExtend(v: nat, modulus: nat): int
    requires v < modulus
  {
    if v < modulus / 2 then v else v - modulus
  }

  /** Conversion of any integer to a signed 32-bit word. */
  function S32(x: int): int { SignExtend(x % TWO32, TWO32) }

  /** Conversion of any integer to a signed 64-bit word. */
  function S64(x: int): int { SignExtend(x % TWO64, TWO64) }

  /** The 4 KiB page an address lies in. */
  function PageOf(a: U64): U64 { a - a % TWO12 }

  /** The 16-bit chunk number `i` of a word, from the least significant one. */
  function Chunk(v: nat, i: nat): U16 { if i == 0 then v % TWO16 else Chunk(v / TWO16, i - 1) }

  function FromChunks(c0: U16, c1: U16, c2: U16, c3: U16): U64
  {
    c0 + TWO16 * (c1 + TWO16 * (c2 + TWO16 * c3))
  }

  lemma ChunksOf(c0: U16, c1: U16, c2: U16, c3: U16)
    ensures var v := FromChunks(c0, c1, c2, c3);
            Chunk(v, 0) == c0 && Chunk(v, 1) == c1 && Chunk(v, 2) == c2 && Chunk(v, 3) == c3
  {
    var t1 := c2 + TWO16 * c3;
    var t0 := c1 + TWO16 * t1;
    DivModUnique(c0 + TWO16 * t0, TWO16, t0, c0);
    DivModUnique(t0, TWO16, t1, c1);
    DivModUnique(t1, TWO16, c3, c2);
    assert Chunk(t0, 0) == c1 && Chunk(t0, 1) == Chunk(t1, 0) == c2 && Chunk(t0, 2) == Chunk(t1, 1) == Chunk(c3, 0);
  }

  /** A word is determined by its four chunks. */
  lemma WordFromChunks(v: U64)
    ensures v == FromChunks(Chunk(v, 0), Chunk(v, 1), Chunk(v, 2), Chunk(v, 3))
  {
    var a := v / TWO16;
    var b := a / TWO16;
    var c := b / TWO16;
    assert Chunk(v, 1) == Chunk(a, 0) && Chunk(v, 2) == Chunk(a, 1) == Chunk(b, 0);
    assert Chunk(v, 3) == Chunk(a, 2) == Chunk(b, 1) == Chunk(c, 0) == c;
  }

  function Abs(x: int): nat { if x < 0 then -x else x }

  /** Division of the C family: truncates toward zero. */
  function TruncDiv(x: int, d: nat): int
    requires d > 0
  {
    if x >= 0 then x / d else -((-x) / d)
  }

  /** A multiple of `m` smaller than `m` in size is zero. */
  lemma SmallMultipleIsZero(d: int, j: int, m: int)
    requires d == j * m && -m < d < m
    ensures d == 0
  {
    if j >= 1 {
      MulMonotone(1, j, m);
    } else if j <= -1 {
      MulMonotone(j, -1, m);
    }
  }

  /** The signed reading is the only value of the symmetric range congruent to `x`. */
  lemma SignedIsUnique(x: int, modulus: int, s: int, k: int)
    requires modulus > 0 && modulus % 2 == 0
    requires -(modulus / 2) <= s < modulus / 2 && x == k * modulus + s
    ensures SignExtend(x % modulus, modulus) == s
  {
    if s >= 0 {
      DivModUnique(x, modulus, k, s);
    } else {
      MulAddOne(k - 1, modulus);
      DivModUnique(x, modulus, k - 1, s + modulus);
    }
  }

  lemma SignedQuotient(x: int, modulus: int) returns (k: int)
    requires modulus > 0 && modulus % 2 == 0
    ensures var s := SignExtend(x % modulus, modulus);
            -(modulus / 2) <= s < modulus / 2 && x == k * modulus + s
  {
    var q, r := x / modulus, x % modulus;
    assert x == q * modulus + r;
    MulAddOne(q, modulus);
    k := if r < modulus / 2 then q else q + 1;
  }

  lemma ModTwice(x: int, m: int)
    requires m > 0
    ensures x % m % m == x % m
  {
    DivModUnique(x % m, m, 0, x % m);
  }

  lemma WrapKeepsAlignment(x: int)
    requires x % 4 == 0
    ensures Wrap64(x) % 4 == 0
  {
    var q := x / TWO64;
    DivModUnique(Wrap64(x), 4, x / 4 - q * (TWO64 / 4), 0);
  }

  lemma MulMonotone(a: int, b: int, m: int)
    requires a <= b && m >= 0
    ensures a * m <= b * m
  {
  }

  lemma MulAddOne(a: int, m: int)
    ensures (a + 1) * m == a * m + m
  {
  }

  /** Quotient and remainder are determined by their defining equation. */
  lemma DivModUnique(x: int, m: int, q: int, r: int)
    requires 0 <= r < m && x == q * m + r
    ensures x / m == q && x % m == r
  {
    var q', r' := x / m, x % m;
    assert x == q' * m + r';
    MulAddOne(q, m);
    MulAddOne(q', m);
    if q + 1 <= q' {
      MulMonotone(q + 1, q', m);
    }
    if q' + 1 <= q {
      MulMonotone(q' + 1, q, m);
    }
  }

  // ----- bitwise operations on unsigned words -----

  function Pow2(n: nat): (p: nat)
    ensures p > 0
  {
    if n == 0 then 1 else 2 * Pow2(n - 1)
  }

  function BitAnd(a: nat, b: nat): nat
  {
    if a == 0 || b == 0 then 0
    else (if a % 2 == 1 && b % 2 == 1 then 1 else 0) + 2 * BitAnd(a / 2, b / 2)
  }

  function BitOr(a: nat, b: nat): nat
    decreases a + b
  {
    if a == 0 then b else if b == 0 then a
    else (if a % 2 == 1 || b % 2 == 1 then 1 else 0) + 2 * BitOr(a / 2, b / 2)
  }

  predicate TestBit(a: nat, i: nat) { if i == 0 then a % 2 == 1 else TestBit(a / 2, i - 1) }

  lemma {:induction false} TestBitOfZero(i: nat)
    ensures !TestBit(0, i)
  {
    if i > 0 {
      TestBitOfZero(i - 1);
    }
  }

  /** A bit of the disjunction is set when it is set in either word. */
  lemma {:induction false} TestBitOr(a: nat, b: nat, i: nat)
    ensures TestBit(BitOr(a, b), i) <==> TestBit(a, i) || TestBit(b, i)
    decreases a + b
  {
    TestBitOfZero(i);
    if a != 0 && b != 0 {
      var r := BitOr(a / 2, b / 2);
      var bit := if a % 2 == 1 || b % 2 == 1 then 1 else 0;
      DivModUnique(BitOr(a, b), 2, r, bit);
      if i > 0 {
        TestBitOr(a / 2, b / 2, i - 1);
      }
    }
  }

  lemma {:induction false} TestBitOfPow2(k: nat, i: nat)
    ensures TestBit(Pow2(k), i) <==> i == k
  {
    if k == 0 {
      if i > 0 {
        TestBitOfZero(i - 1);
      }
    } else {
      DivModUnique(Pow2(k), 2, Pow2(k - 1), 0);
      if i > 0 {
        TestBitOfPow2(k - 1, i - 1);
      }
    }
  }

  /** 2^(m + n) - 2^m has exactly the bits m to m + n - 1. */
  lemma {:induction false} TestBitOfRun(m: nat, n: nat, i: nat)
    ensures Pow2(m + n) >= Pow2(m)
    ensures TestBit(Pow2(m + n) - Pow2(m), i) <==> m <= i < m + n
    decreases m + n
  {
    if n == 0 {
      TestBitOfZero(i);
    } else if m > 0 {
      TestBitOfRun(m - 1, n, if i == 0 then 0 else i - 1);
      DivModUnique(Pow2(m + n) - Pow2(m), 2, Pow2(m - 1 + n) - Pow2(m - 1), 0);
    } else {
      TestBitOfRun(0, n - 1, if i == 0 then 0 else i - 1);
      DivModUnique(Pow2(n) - 1, 2, Pow2(n - 1) - 1, 1);
    }
  }

  lemma Pow2Values()
    ensures Pow2(31) == 0x8000_0000 && Pow2(64) == TWO64
  {
    assert Pow2(8) == 0x100;
    assert Pow2(16) == 0x100 * 0x100 by { Pow2Adds(8, 8); }
    assert Pow2(32) == TWO32 by { Pow2Adds(16, 16); }
    assert Pow2(64) == TWO64 by { Pow2Adds(32, 32); }
  }

  lemma {:induction false} Pow2Adds(m: nat, n: nat)
    ensures Pow2(m + n) == Pow2(m) * Pow2(n)
  {
    if m > 0 {
      Pow2Adds(m - 1, n);
      assert Pow2(m + n) == 2 * Pow2(m - 1 + n);
      DoubledFactor(Pow2(m - 1), Pow2(n));
    }
  }

  lemma DoubledFactor(a: nat, b: nat)
    ensures 2 * (a * b) == (2 * a) * b
  {
  }

  /** Masking with 2^k - 1 is the remainder modulo 2^k. */
  lemma {:induction false} AndLowMask(x: nat, k: nat)
    ensures BitAnd(x, Pow2(k) - 1) == x % Pow2(k)
    decreases k
  {
    var p := Pow2(k);
    if k == 0 {
      DivModUnique(x, 1, x, 0);
    } else if x == 0 {
      DivModUnique(0, p, 0, 0);
    } else {
      AndLowMask(x / 2, k - 1);
      HalvesModulo(x, Pow2(k - 1));
      assert (p - 1) / 2 == Pow2(k - 1) - 1 && (p - 1) % 2 == 1;
    }
  }

  /** Dividing by 2 * p goes through halving. */
  lemma HalvesModulo(x: int, p: int)
    requires p > 0
    ensures x % (2 * p) == 2 * ((x / 2) % p) + x % 2
    ensures x / (2 * p) == (x / 2) / p
  {
    var h := x / 2;
    var q, r := h / p, h % p;
    assert h == q * p + r;
    calc {
      x;
      2 * h + x % 2;
      2 * (q * p) + 2 * r + x % 2;
      q * (2 * p) + (2 * r + x % 2);
    }
    DivModUnique(x, 2 * p, q, 2 * r + x % 2);
  }

  /** C++ `alignUp`: (x + (a - 1)) & ~(a - 1). Clearing the bits of a mask subtracts them. */
  function AlignUp(x: nat, a: nat): nat
    requires a > 0
  {
    AndAtMost(x + a - 1, a - 1);
    x + a - 1 - BitAnd(x + a - 1, a - 1)
  }

  lemma AndAtMost(a: nat, b: nat)
    ensures BitAnd(a, b) <= a && BitAnd(a, b) <= b
  {
  }

  ghost predicate IsPow2(a: nat)
    ensures IsPow2(a) ==> a > 0
  {
    exists k: nat :: Pow2(k) == a
  }

  /** Two multiples of `a`, the first below the second, are at least `a` apart. */
  lemma MultiplesApart(m: int, n: int, a: int)
    requires a > 0 && m % a == 0 && n % a == 0 && m < n
    ensures m + a <= n
  {
    var p, q := m / a, n / a;
    assert m == p * a && n == q * a;
    MulAddOne(p, a);
    if q <= p {
      MulMonotone(q, p, a);
    } else {
      MulMonotone(p + 1, q, a);
    }
  }

  lemma FloorIsMultiple(y: int, a: int)
    requires a > 0
    ensures (y - y % a) % a == 0
  {
    var q := y / a;
    assert y - y % a == q * a;
    DivModUnique(q * a, a, q, 0);
  }

  lemma AlignUpIsFloor(x: nat, a: nat)
    requires IsPow2(a)
    ensures AlignUp(x, a) == x + a - 1 - (x + a - 1) % a
  {
    var k: nat :| Pow2(k) == a;
    AndLowMask(x + a - 1, k);
  }

  /** For a power of two, `AlignUp` is the least multiple of it that is at least `x`. */
  lemma {:induction false} AlignUpIsLeast(x: nat, a: nat)
    requires IsPow2(a)
    ensures AlignUp(x, a) % a == 0 && x <= AlignUp(x, a) < x + a
    ensures forall m: nat :: m % a == 0 && m >= x ==> m >= AlignUp(x, a)
  {
    AlignUpIsFloor(x, a);
    FloorIsMultiple(x + a - 1, a);
    forall m: nat | m % a == 0 && m >= x
      ensures m >= AlignUp(x, a)
    {
      if m < AlignUp(x, a) {
        MultiplesApart(m, AlignUp(x, a), a);
      }
    }
  }

  lemma WrapTwice(a: int, b: int)
    ensures Wrap64(Wrap64(a) + b) == Wrap64(a + b)
  {
    var k := a / TWO64;
    var q, r := (a + b) / TWO64, (a + b) % TWO64;
    DivModUnique(a % TWO64 + b, TWO64, q - k, r);
  }

  // ----- words in memory -----

  /** The little-endian word at a pointer. */
  function Word(s: seq<U8>): nat { if s == [] then 0 else s[0] + TWO8 * Word(s[1..]) }

  /** The `n` low bytes of a word, the least significant first. */
  function Bytes(v: nat, n: nat): (s: seq<U8>)
    ensures |s| == n
    decreases n, v
  {
    if n == 0 then [] else [v % TWO8] + Bytes(v / TWO8, n - 1)
  }

  lemma {:induction false} WordOfBytes(v: nat, n: nat)
    requires v < Pow2(8 * n)
    ensures Word(Bytes(v, n)) == v
  {
    if n > 0 {
      Pow2Adds(8, 8 * (n - 1));
      EightBits(8);
      WordOfBytes(v / TWO8, n - 1);
      assert Bytes(v, n)[1..] == Bytes(v / TWO8, n - 1);
    }
  }

  lemma EightBits(k: nat)
    requires k == 8
    ensures Pow2(k) == TWO8
  {
    assert Pow2(8) == 256;
  }

  lemma WidthOfBytes(n: nat)
    ensures n == 4 ==> Pow2(8 * n) == TWO32
    ensures n == 8 ==> Pow2(8 * n) == TWO64
  {
    Pow2Values();
    Pow2Adds(16, 16);
  }

  function ReadWord(memory: seq<U8>, at: nat, n: nat): nat
    requires at + n <= |memory|
  {
    Word(memory[at..at + n])
  }

  function WriteWord(memory: seq<U8>, at: nat, n: nat, v: nat): (r: seq<U8>)
    requires at + n <= |memory|
    ensures |r| == |memory| && r[at..at + n] == Bytes(v, n)
    ensures forall k :: 0 <= k < |memory| && !(at <= k < at + n) ==> r[k] == memory[k]
  {
    memory[..at] + Bytes(v, n) + memory[at + n..]
  }

  /** A word that was written reads back; one that does not overlap it is unchanged. */
  lemma ReadAfterWrite(memory: seq<U8>, at: nat, n: nat, v: nat, other: nat)
    requires at + n <= |memory| && other + n <= |memory| && v < Pow2(8 * n)
    requires other == at || other + n <= at || at + n <= other
    ensures ReadWord(WriteWord(memory, at, n, v), other, n) == if other == at then v else ReadWord(memory, other, n)
  {
    var r := WriteWord(memory, at, n, v);
    if other == at {
      WordOfBytes(v, n);
    } else {
      assert r[other..other + n] == memory[other..other + n];
    }
  }

  lemma {:induction false} WordBelow(s: seq<U8>)
    ensures Word(s) < Pow2(8 * |s|)
  {
    if s != [] {
      WordBelow(s[1..]);
      Pow2Adds(8, 8 * (|s| - 1));
      EightBits(8);
    }
  }

  /** Bytes are determined by the word they make. */
  lemma {:induction false} WordIsInjective(a: seq<U8>, b: seq<U8>)
    requires |a| == |b| && Word(a) == Word(b)
    ensures a == b
  {
    if a != [] {
      DivModUnique(Word(a), TWO8, Word(a[1..]), a[0]);
      DivModUnique(Word(b), TWO8, Word(b[1..]), b[0]);
      WordIsInjective(a[1..], b[1..]);
    }
  }
}
