/** The Argon2 block compression (blamka_generic.go): the BlaMka round on sixteen 64-bit words and
    the row/column schedule over a 128-word block. A uint64 is an integer below 2^64 and every wrap
    is written out. */
module Blamka {
  const W32 := 0x1_0000_0000
  const W64 := 0x1_0000_0000_0000_0000
  const BLOCK_LENGTH := 128

  type Word = x: int | 0 <= x < W64 witness 0
  type Block = b: seq<Word> | |b| == BLOCK_LENGTH witness seq(BLOCK_LENGTH, _ => 0)
  type Lanes16 = v: seq<Word> | |v| == 16 witness seq(16, _ => 0)

  function ZeroBlock(): Block
  {
    seq(BLOCK_LENGTH, _ => 0)
  }

  // ----- word operations -----

  function Pow2(n: nat): (p: nat)
    ensures p > 0
  {
    if n == 0 then 1 else 2 * Pow2(n - 1)
  }

  // Bitwise exclusive or of the low n bits.
  function XorBits(a: nat, b: nat, n: nat): nat
  {
    if n == 0 then 0
    else (if a % 2 == b % 2 then 0 else 1) + 2 * XorBits(a / 2, b / 2, n - 1)
  }

  lemma {:induction false} XorBitsBelow(a: nat, b: nat, n: nat)
    ensures XorBits(a, b, n) < Pow2(n)
  {
    if n > 0 {
      XorBitsBelow(a / 2, b / 2, n - 1);
    }
  }

  // Exclusive or is its own inverse on n-bit numbers.
  lemma {:induction false} XorBitsCancel(a: nat, b: nat, n: nat)
    requires a < Pow2(n)
    ensures XorBits(XorBits(a, b, n), b, n) == a
  {
    if n > 0 {
      var x, high := XorBits(a, b, n), XorBits(a / 2, b / 2, n - 1);
      assert x / 2 == high && x % 2 == if a % 2 == b % 2 then 0 else 1;
      XorBitsCancel(a / 2, b / 2, n - 1);
    }
  }

  lemma Pow2Of16()
    ensures Pow2(16) == 0x1_0000
  {
    assert Pow2(8) == 256;
  }

  lemma Pow2Of32()
    ensures Pow2(24) == 0x100_0000 && Pow2(32) == W32
  {
    Pow2Of16();
    assert Pow2(24) == 0x100_0000;
  }

  lemma Pow2Of64()
    ensures Pow2(64) == W64
  {
    Pow2Of32();
    assert Pow2(40) == 0x100 * W32;
    assert Pow2(48) == 0x1_0000 * W32;
    assert Pow2(56) == 0x100_0000 * W32;
  }

  lemma {:induction false} XorBitsExchange(a: nat, b: nat, c: nat, n: nat)
    ensures XorBits(XorBits(a, b, n), c, n) == XorBits(XorBits(a, c, n), b, n)
    ensures XorBits(a, b, n) == XorBits(b, a, n)
  {
    if n > 0 {
      var ab, ac := XorBits(a, b, n), XorBits(a, c, n);
      assert ab / 2 == XorBits(a / 2, b / 2, n - 1) && ab % 2 == if a % 2 == b % 2 then 0 else 1;
      assert ac / 2 == XorBits(a / 2, c / 2, n - 1) && ac % 2 == if a % 2 == c % 2 then 0 else 1;
      XorBitsExchange(a / 2, b / 2, c / 2, n - 1);
    }
  }

  function Xor(a: Word, b: Word): Word
  {
    XorBitsBelow(a, b, 64);
    Pow2Of64();
    XorBits(a, b, 64)
  }

  lemma XorCancel(a: Word, b: Word)
    ensures Xor(Xor(a, b), b) == a
  {
    Pow2Of64();
    XorBitsCancel(a, b, 64);
  }

  // ----- words bit by bit -----

  function Bit(x: nat, i: nat): nat
    decreases i
  {
    if i == 0 then x % 2 else Bit(x / 2, i - 1)
  }

  lemma {:induction false} XorBitsBit(a: nat, b: nat, n: nat, i: nat)
    requires i < n
    ensures Bit(XorBits(a, b, n), i) == (Bit(a, i) + Bit(b, i)) % 2
    decreases i
  {
    if i > 0 {
      var x, high := XorBits(a, b, n), XorBits(a / 2, b / 2, n - 1);
      assert x / 2 == high;
      XorBitsBit(a / 2, b / 2, n - 1, i - 1);
    }
  }

  // Every bit of the exclusive or is the sum of the two bits, modulo 2.
  lemma XorIsBitwise(a: Word, b: Word, i: nat)
    requires i < 64
    ensures Bit(Xor(a, b), i) == (Bit(a, i) + Bit(b, i)) % 2
  {
    XorBitsBit(a, b, 64, i);
  }

  // Bits of two numbers put side by side, the lower one of h bits.
  lemma {:induction false} BitOfSum(low: nat, high: nat, h: nat, i: nat)
    requires low < Pow2(h)
    ensures Bit(low + high * Pow2(h), i) == if i < h then Bit(low, i) else Bit(high, i - h)
    decreases h
  {
    if h == 0 {
      assert low + high * Pow2(0) == high;
    } else {
      var rest := high * Pow2(h - 1);
      Reassociate(high, 2, Pow2(h - 1));
      assert low + high * Pow2(h) == low + 2 * rest;
      assert (low + 2 * rest) % 2 == low % 2 && (low + 2 * rest) / 2 == low / 2 + rest;
      if i > 0 {
        BitOfSum(low / 2, high, h - 1, i - 1);
      }
    }
  }

  lemma {:induction false} Pow2Sum(a: nat, b: nat)
    ensures Pow2(a + b) == Pow2(a) * Pow2(b)
  {
    if a > 0 {
      Pow2Sum(a - 1, b);
      Reassociate(2, Pow2(a - 1), Pow2(b));
    }
  }

  // A word rotated to the right by k bits: v>>k | v<<(64-k).
  function RotateRight(v: Word, k: nat): Word
    requires k <= 64
  {
    Pow2Sum(k, 64 - k);
    Pow2Of64();
    RotateBound(v, Pow2(k), Pow2(64 - k));
    v / Pow2(k) + (v % Pow2(k)) * Pow2(64 - k)
  }

  lemma RotateRightParts(v: Word, k: nat) returns (low: nat, high: nat)
    requires k <= 64
    ensures v == low + high * Pow2(k) && RotateRight(v, k) == high + low * Pow2(64 - k)
    ensures low < Pow2(k) && high < Pow2(64 - k)
  {
    hide Pow2;
    Pow2Sum(k, 64 - k);
    Pow2Of64();
    RotateBound(v, Pow2(k), Pow2(64 - k));
    low, high := v % Pow2(k), v / Pow2(k);
  }

  lemma PartsBit(v: nat, r: nat, low: nat, high: nat, k: nat, i: nat)
    requires k <= 64 && i < 64 && low < Pow2(k) && high < Pow2(64 - k)
    requires v == low + high * Pow2(k) && r == high + low * Pow2(64 - k)
    ensures Bit(r, i) == Bit(v, (i + k) % 64)
  {
    hide Pow2, Bit;
    BitOfSum(high, low, 64 - k, i);
    if i < 64 - k {
      BitOfSum(low, high, k, i + k);
    } else {
      BitOfSum(low, high, k, i + k - 64);
    }
  }

  // Bit i of the rotated word is bit i+k of the word, around the end.
  lemma RotateRightBit(v: Word, k: nat, i: nat)
    requires k <= 64 && i < 64
    ensures Bit(RotateRight(v, k), i) == Bit(v, (i + k) % 64)
  {
    hide RotateRight, Pow2, Bit;
    var low, high := RotateRightParts(v, k);
    PartsBit(v, RotateRight(v, k), low, high, k, i);
  }

  // v>>k | v<<(64-k), where low == 2^k and high == 2^(64-k).
  function Rotate(v: Word, low: int, high: int): (r: Word)
    requires low > 0 && high > 0 && low * high == W64
  {
    RotateBound(v, low, high);
    v / low + (v % low) * high
  }

  lemma RotateBound(v: Word, low: int, high: int)
    requires low > 0 && high > 0 && low * high == W64
    ensures 0 <= v / low < high
    ensures 0 <= v / low + (v % low) * high < W64
  {
    assert (v % low) * high <= (low - 1) * high;
  }

  lemma RotateBack(v: Word, low: int, high: int)
    requires low > 0 && high > 0 && low * high == W64 && high * low == W64
    ensures Rotate(Rotate(v, low, high), high, low) == v
  {
    RotateBound(v, low, high);
    var q, m := v / low, v % low;
    var r := q + m * high;
    DivModUnique(r, high, m, q);
    assert v == q * low + m;
  }

  lemma DivModUnique(x: int, d: int, q: int, r: int)
    requires d > 0 && 0 <= r < d && x == r + q * d
    ensures x / d == q && x % d == r
  {
    var e := x / d - q;
    assert x == d * (x / d) + x % d;
    assert d * e == r - x % d;
  }

  // v += y + 2*uint64(uint32(v))*uint64(uint32(y))
  function MulAdd(x: Word, y: Word): Word
  {
    (x + y + 2 * ((x % W32) * (y % W32))) % W64
  }

  // ----- the multiply-add step is invertible because 1 + 2*low(y) is odd -----

  ghost function InverseOdd(a: nat, k: nat): nat
    requires k > 0
  {
    if k == 1 then 1
    else
      var r := InverseOdd(a, k - 1);
      if (a * r) % Pow2(k) == 1 then r else r + Pow2(k - 1)
  }

  // If a*r is 1 modulo p, then modulo 2p either a*r or a*(r+p) is 1, for odd a.
  lemma LiftInverse(a: nat, r: nat, p: nat, t: nat)
    requires p >= 2 && a % 2 == 1
    requires a * r == 1 + t * p
    ensures (a * r) % (2 * p) == 1 || (a * (r + p)) % (2 * p) == 1
  {
    if t % 2 == 0 {
      EvenMultiple(t, p);
      DivModUnique(a * r, 2 * p, t / 2, 1);
    } else {
      EvenMultiple(t + a, p);
      Distribute(a, r, p);
      Distribute(p, t, a);
      DivModUnique(a * (r + p), 2 * p, (t + a) / 2, 1);
    }
  }

  lemma Distribute(a: int, x: int, y: int)
    ensures a * (x + y) == a * x + a * y && (x + y) * a == x * a + y * a
  {
  }

  lemma EvenMultiple(t: int, p: int)
    requires t % 2 == 0
    ensures t * p == (t / 2) * (2 * p)
  {
    var h := t / 2;
    assert t == 2 * h;
  }

  lemma LiftStep(a: nat, r: nat, p: nat)
    requires p >= 2 && a % 2 == 1 && (a * r) % p == 1
    ensures (a * r) % (2 * p) == 1 || (a * (r + p)) % (2 * p) == 1
  {
    LiftInverse(a, r, p, (a * r) / p);
  }

  lemma {:induction false} InverseOddCorrect(a: nat, k: nat)
    requires k > 0 && a % 2 == 1
    ensures (a * InverseOdd(a, k)) % Pow2(k) == 1
  {
    if k == 1 {
      assert Pow2(1) == 2;
    } else {
      InverseOddCorrect(a, k - 1);
      LiftStep(a, InverseOdd(a, k - 1), Pow2(k - 1));
    }
  }

  const HALF_BITS: nat := 32

  ghost function LowHalfInverse(low: nat): nat
  {
    InverseOdd(1 + 2 * low, HALF_BITS)
  }

  lemma LowInverse(low: nat)
    ensures ((1 + 2 * low) * LowHalfInverse(low)) % W32 == 1
  {
    InverseOddCorrect(1 + 2 * low, HALF_BITS);
    Pow2Of32();
  }

  // The x with MulAdd(x, y) == z: the low half by the inverse of 1 + 2*low(y), then the rest.
  ghost function UnMulAdd(z: Word, y: Word): Word
  {
    UnMulAddLow(z, y, ((z - y) * LowHalfInverse(y % W32)) % W32)
  }

  ghost function UnMulAddLow(z: Word, y: Word, low: int): Word
  {
    (z - y - 2 * (low * (y % W32))) % W64
  }

  lemma UnMulAddLowAfter(x: Word, y: Word)
    ensures UnMulAddLow(MulAdd(x, y), y, x % W32) == x
  {
    var p := (x % W32) * (y % W32);
    var q := DivModParts(x + y + 2 * p, W64);
    var z := MulAdd(x, y);
    assert z - y - 2 * p == x + (-q) * W64;
    ModCongruent(z - y - 2 * p, x, W64, -q);
  }

  lemma ModCongruent(x: int, y: int, m: int, k: int)
    requires m > 0 && x == y + k * m
    ensures x % m == y % m
  {
    DivModUnique(x, m, y / m + k, y % m);
  }

  lemma LowHalfOfDifference(x: Word, y: Word)
    ensures exists k: int :: MulAdd(x, y) - y == (x % W32) * (1 + 2 * (y % W32)) + k * W32
  {
    var s := x + y + 2 * ((x % W32) * (y % W32));
    var k := x / W32 - (s / W64) * W32;
    assert s == MulAdd(x, y) + (s / W64) * W64;
    assert (x % W32) * (1 + 2 * (y % W32)) == (x % W32) + 2 * ((x % W32) * (y % W32));
    assert MulAdd(x, y) - y == (x % W32) * (1 + 2 * (y % W32)) + k * W32;
  }

  lemma ScaleCongruence(d: int, x: int, a: int, k: int, i: int, j: int, m: int)
    requires a * i == 1 + j * m && d == x * a + k * m
    ensures d * i == x + (x * j + k * i) * m
  {
    Distribute(i, x * a, k * m);
    Reassociate(x, a, i);
    Reassociate(k, m, i);
    Distribute(x, 1, j * m);
    Reassociate(x, j, m);
    Distribute(m, x * j, k * i);
  }

  lemma DivModParts(x: int, m: int) returns (q: int)
    requires m > 0
    ensures x == x % m + q * m
  {
    q := x / m;
  }

  // Multiplying by an inverse i of a recovers x modulo m from x*a.
  lemma CancelFactor(d: int, x: int, a: int, k: int, i: int, m: int)
    requires m > 0 && (a * i) % m == 1 && 0 <= x < m
    requires d == x * a + k * m
    ensures (d * i) % m == x
  {
    var j := DivModParts(a * i, m);
    ScaleCongruence(d, x, a, k, i, j, m);
    DivModUnique(d * i, m, x * j + k * i, x);
  }

  lemma Reassociate(a: int, b: int, c: int)
    ensures (a * b) * c == a * (b * c) == (a * c) * b
  {
  }

  lemma UnMulAddAfter(x: Word, y: Word)
    ensures UnMulAdd(MulAdd(x, y), y) == x
  {
    LowHalfOfDifference(x, y);
    var k: int :| MulAdd(x, y) - y == (x % W32) * (1 + 2 * (y % W32)) + k * W32;
    LowInverse(y % W32);
    CancelFactor(MulAdd(x, y) - y, x % W32, 1 + 2 * (y % W32), k, LowHalfInverse(y % W32), W32);
    UnMulAddLowAfter(x, y);
  }

  lemma LowHalfOfInverse(e: int, p: int, low: int, c: int)
    requires 0 <= low < W32 && low + 2 * p == e + c * W32
    ensures ((e - 2 * p) % W64) % W32 == low
    ensures (((e - 2 * p) % W64) + 2 * p - e) % W64 == 0
  {
    var q := DivModParts(e - 2 * p, W64);
    var x := (e - 2 * p) % W64;
    assert x == low + (-c - q * W32) * W32;
    DivModUnique(x, W32, -c - q * W32, low);
    DivModUnique(x + 2 * p - e, W64, -q, 0);
  }

  lemma OddFactor(low: int, yl: int)
    ensures low * (1 + 2 * yl) == low + 2 * (low * yl)
  {
  }

  // MulAdd and its inverse with the product of the low halves named.
  lemma MulAddWithProduct(x: Word, y: Word, p: int)
    requires p == (x % W32) * (y % W32)
    ensures MulAdd(x, y) == (x + y + 2 * p) % W64
  {
  }

  lemma UnMulAddWithProduct(z: Word, y: Word, low: int, p: int)
    requires p == low * (y % W32)
    ensures UnMulAddLow(z, y, low) == (z - y - 2 * p) % W64
  {
  }

  lemma MulAddLowAfter(z: Word, y: Word, low: int, c: int, p: int)
    requires 0 <= low < W32 && p == low * (y % W32)
    requires low + 2 * p == z - y + c * W32
    ensures MulAdd(UnMulAddLow(z, y, low), y) == z
  {
    hide MulAdd, UnMulAddLow;
    var x := UnMulAddLow(z, y, low);
    UnMulAddWithProduct(z, y, low, p);
    LowHalfOfInverse(z - y, p, low, c);
    var q := DivModParts(x + 2 * p - (z - y), W64);
    MulAddWithProduct(x, y, p);
    ModCongruent(x + y + 2 * p, z, W64, q);
  }

  lemma MulAddAfter(z: Word, y: Word)
    ensures MulAdd(UnMulAdd(z, y), y) == z
  {
    var yl, i := y % W32, LowHalfInverse(y % W32);
    var low := ((z - y) * i) % W32;
    LowInverse(yl);
    var j := DivModParts((1 + 2 * yl) * i, W32);
    var k := DivModParts((z - y) * i, W32);
    UndoFactor(z - y, 1 + 2 * yl, i, j, k, low, W32);
    OddFactor(low, yl);
    MulAddLowAfter(z, y, low, (z - y) * j - k * (1 + 2 * yl), low * yl);
  }

  lemma UndoFactor(d: int, a: int, i: int, j: int, k: int, low: int, m: int)
    requires a * i == 1 + j * m && d * i == low + k * m
    ensures low * a == d + (d * j - k * a) * m
  {
    Reassociate(d, i, a);
    Distribute(d, 1, j * m);
    Distribute(a, low, k * m);
    Reassociate(d, j, m);
    Reassociate(k, m, a);
    Distribute(m, d * j - k * a, k * a);
  }

  // ----- the quarter round -----

  datatype Quad = Quad(a: Word, b: Word, c: Word, d: Word)

  // A rotation to the right: low == 2^k, high == 2^(64-k).
  datatype Rotation = Rotation(low: int, high: int)
  {
    predicate Valid() { low > 0 && high > 0 && low * high == W64 && high * low == W64 }
  }

  const R32 := Rotation(W32, W32)
  const R24 := Rotation(0x100_0000, 0x100_0000_0000)
  const R16 := Rotation(0x1_0000, 0x1_0000_0000_0000)
  const R63 := Rotation(0x8000_0000_0000_0000, 2)

  function Half(q: Quad, forD: Rotation, forB: Rotation): Quad
    requires forD.Valid() && forB.Valid()
  {
    var a := MulAdd(q.a, q.b);
    var d := Rotate(Xor(q.d, a), forD.low, forD.high);
    var c := MulAdd(q.c, d);
    var b := Rotate(Xor(q.b, c), forB.low, forB.high);
    Quad(a, b, c, d)
  }

  ghost function UnHalf(q: Quad, forD: Rotation, forB: Rotation): Quad
    requires forD.Valid() && forB.Valid()
  {
    var b := Xor(Rotate(q.b, forB.high, forB.low), q.c);
    var c := UnMulAdd(q.c, q.d);
    var d := Xor(Rotate(q.d, forD.high, forD.low), q.a);
    var a := UnMulAdd(q.a, b);
    Quad(a, b, c, d)
  }

  lemma HalfInverse(q: Quad, forD: Rotation, forB: Rotation)
    requires forD.Valid() && forB.Valid()
    ensures UnHalf(Half(q, forD, forB), forD, forB) == q
    ensures Half(UnHalf(q, forD, forB), forD, forB) == q
  {
    var h, u := Half(q, forD, forB), UnHalf(q, forD, forB);
    UnMulAddAfter(q.a, q.b);
    UnMulAddAfter(q.c, h.d);
    RotateBack(Xor(q.d, h.a), forD.low, forD.high);
    RotateBack(Xor(q.b, h.c), forB.low, forB.high);
    XorCancel(q.d, h.a);
    XorCancel(q.b, h.c);
    MulAddAfter(q.a, u.b);
    MulAddAfter(q.c, q.d);
    RotateBack(q.d, forD.high, forD.low);
    RotateBack(q.b, forB.high, forB.low);
    XorCancel(Rotate(q.d, forD.high, forD.low), q.a);
    XorCancel(Rotate(q.b, forB.high, forB.low), q.c);
  }

  function GB(q: Quad): Quad
  {
    Half(Half(q, R32, R24), R16, R63)
  }

  ghost function UnGB(q: Quad): Quad
  {
    UnHalf(UnHalf(q, R16, R63), R32, R24)
  }

  lemma GBInverse(q: Quad)
    ensures UnGB(GB(q)) == q && GB(UnGB(q)) == q
  {
    HalfInverse(q, R32, R24);
    HalfInverse(Half(q, R32, R24), R16, R63);
    HalfInverse(q, R16, R63);
    HalfInverse(UnHalf(q, R16, R63), R32, R24);
  }

  // GB of section 3.6 of RFC 9106, on the words: four multiply-adds, each followed by a rotated xor.
  lemma GBEquations(a: Word, b: Word, c: Word, d: Word)
    ensures var a1: Word := (a + b + 2 * ((a % 0x1_0000_0000) * (b % 0x1_0000_0000))) % 0x1_0000_0000_0000_0000;
            var d1 := RotateRight(Xor(d, a1), 32);
            var c1: Word := (c + d1 + 2 * ((c % 0x1_0000_0000) * (d1 % 0x1_0000_0000))) % 0x1_0000_0000_0000_0000;
            var b1 := RotateRight(Xor(b, c1), 24);
            var a2: Word := (a1 + b1 + 2 * ((a1 % 0x1_0000_0000) * (b1 % 0x1_0000_0000))) % 0x1_0000_0000_0000_0000;
            var d2 := RotateRight(Xor(d1, a2), 16);
            var c2: Word := (c1 + d2 + 2 * ((c1 % 0x1_0000_0000) * (d2 % 0x1_0000_0000))) % 0x1_0000_0000_0000_0000;
            var b2 := RotateRight(Xor(b1, c2), 63);
            GB(Quad(a, b, c, d)) == Quad(a2, b2, c2, d2)
  {
    hide MulAdd, RotateRight, Xor, GB;
    var a1 := MulAddIs(a, b);
    var d1 := RotateRight(Xor(d, a1), 32);
    var c1 := MulAddIs(c, d1);
    var b1 := RotateRight(Xor(b, c1), 24);
    var a2 := MulAddIs(a1, b1);
    var d2 := RotateRight(Xor(d1, a2), 16);
    var c2 := MulAddIs(c1, d2);
    GBSteps(a, b, c, d);
  }

  lemma MulAddIs(x: Word, y: Word) returns (z: Word)
    ensures z == MulAdd(x, y) == (x + y + 2 * ((x % 0x1_0000_0000) * (y % 0x1_0000_0000))) % 0x1_0000_0000_0000_0000
  {
    z := MulAdd(x, y);
  }

  lemma GBSteps(a: Word, b: Word, c: Word, d: Word)
    ensures var a1 := MulAdd(a, b);
            var d1 := RotateRight(Xor(d, a1), 32);
            var c1 := MulAdd(c, d1);
            var b1 := RotateRight(Xor(b, c1), 24);
            var a2 := MulAdd(a1, b1);
            var d2 := RotateRight(Xor(d1, a2), 16);
            var c2 := MulAdd(c1, d2);
            GB(Quad(a, b, c, d)) == Quad(a2, RotateRight(Xor(b1, c2), 63), c2, d2)
  {
    hide Half, RotateRight, Xor, MulAdd;
    var q := Quad(a, b, c, d);
    Turns();
    HalfSteps(q, 32, 24, R32, R24);
    HalfSteps(Half(q, R32, R24), 16, 63, R16, R63);
  }

  // The rotations used are by 32, 24, 16 and 63.
  lemma Turns()
    ensures R32.low == Pow2(32) && R24.low == Pow2(24) && R16.low == Pow2(16) && R63.low == Pow2(63)
  {
    Pow2Of32();
    Pow2Of64();
    assert Pow2(64) == 2 * Pow2(63);
    Pow2Of16();
  }

  lemma HalfSteps(q: Quad, k: nat, l: nat, forD: Rotation, forB: Rotation)
    requires forD.Valid() && forB.Valid() && k <= 64 && l <= 64 && forD.low == Pow2(k) && forB.low == Pow2(l)
    ensures var a := MulAdd(q.a, q.b);
            var d := RotateRight(Xor(q.d, a), k);
            var c := MulAdd(q.c, d);
            Half(q, forD, forB) == Quad(a, RotateRight(Xor(q.b, c), l), c, d)
  {
    hide Rotate, RotateRight, Xor, MulAdd;
    var h := Half(q, forD, forB);
    Turn(Xor(q.d, h.a), k, forD);
    Turn(Xor(q.b, h.c), l, forB);
  }

  lemma Turn(v: Word, k: nat, r: Rotation)
    requires r.Valid() && k <= 64 && r.low == Pow2(k)
    ensures Rotate(v, r.low, r.high) == RotateRight(v, k)
  {
    Pow2Sum(k, 64 - k);
    Pow2Of64();
    SameFactor(Pow2(k), r.high, Pow2(64 - k));
  }

  lemma SameFactor(a: int, x: int, y: int)
    requires a > 0 && a * x == a * y
    ensures x == y
  {
  }

  lemma {:induction false} XorOfZero(x: nat, n: nat)
    requires x < Pow2(n)
    ensures XorBits(0, x, n) == x
  {
    if n > 0 {
      XorOfZero(x / 2, n - 1);
    }
  }

  // The low k bits of x are zero.
  ghost predicate Clear(x: nat, k: nat)
    decreases k
  {
    k > 0 ==> x % 2 == 0 && Clear(x / 2, k - 1)
  }

  // Numbers without a bit in common are added.
  lemma {:induction false} XorBitsSum(low: nat, x: nat, k: nat, n: nat)
    requires low < Pow2(k) && Clear(x, k) && low + x < Pow2(n)
    ensures XorBits(low, x, n) == low + x
    decreases n
  {
    if k == 0 || n == 0 {
      XorOfZero(x, n);
    } else {
      XorBitsSum(low / 2, x / 2, k - 1, n - 1);
    }
  }

  lemma XorOfSum(low: nat, x: Word, k: nat)
    requires low < Pow2(k) && Clear(x, k) && low + x < W64
    ensures Xor(low, x) == Xor(x, low) == low + x
  {
    Pow2Of64();
    XorBitsSum(low, x, k, 64);
    XorBitsExchange(low, x, 0, 64);
  }

  // One bit in the last word reaches all four.
  lemma GBOfOne()
    ensures GB(Quad(0, 0, 0, 1)) == Quad(0x100, 0x0200000200020200, 0x0100000100010000, 0x0100000000010000)
  {
    hide Xor, Rotate, MulAdd;
    FirstHalfOfOne();
    SecondHalfOfOne();
  }

  lemma {:induction false} ClearMultiple(x: nat, h: nat, k: nat)
    requires x == h * Pow2(k)
    ensures Clear(x, k)
    decreases k
  {
    if k > 0 {
      Reassociate(h, 2, Pow2(k - 1));
      ClearMultiple(h * Pow2(k - 1), h, k - 1);
    }
  }

  lemma SomeXors()
    ensures Xor(1, 0) == 1 && Xor(0, 0x1_0000_0000) == 0x1_0000_0000 && Xor(0x1_0000_0000, 0x100) == 0x1_0000_0100
    ensures Xor(0x100, 0x0100_0001_0001_0000) == 0x0100_0001_0001_0100
  {
    Pow2Of16();
    ClearMultiple(0x1_0000_0000, 0x1_0000, 16);
    ClearMultiple(0x0100_0001_0001_0000, 0x0100_0001_0001, 16);
    XorOfSum(0, 1, 0);
    XorOfSum(0, 0x1_0000_0000, 0);
    XorOfSum(0x100, 0x1_0000_0000, 16);
    XorOfSum(0x100, 0x0100_0001_0001_0000, 16);
  }

  lemma MulAddOfZero(y: Word)
    ensures MulAdd(0, y) == y
  {
  }

  // v == m + q * low, and q is what remains.
  lemma RotateParts(v: Word, low: int, high: int, q: int, m: int)
    requires low > 0 && high > 0 && low * high == W64 && 0 <= m < low && v == m + q * low
    ensures Rotate(v, low, high) == q + m * high
  {
    DivModUnique(v, low, q, m);
  }

  lemma FirstHalfOfOne()
    ensures Half(Quad(0, 0, 0, 1), R32, R24) == Quad(0, 0x100, 0x1_0000_0000, 0x1_0000_0000)
  {
    hide Xor, MulAdd, Rotate;
    SomeXors();
    MulAddOfZero(0);
    MulAddOfZero(0x1_0000_0000);
    RotateParts(1, R32.low, R32.high, 0, 1);
    RotateParts(0x1_0000_0000, R24.low, R24.high, 0x100, 0);
  }

  lemma SecondHalfOfOne()
    ensures Half(Quad(0, 0x100, 0x1_0000_0000, 0x1_0000_0000), R16, R63)
         == Quad(0x100, 0x0200000200020200, 0x0100000100010000, 0x0100000000010000)
  {
    hide Xor;
    SomeXors();
    assert MulAdd(0, 0x100) == 0x100 && Rotate(0x1_0000_0100, R16.low, R16.high) == 0x0100_0000_0001_0000;
    assert MulAdd(0x1_0000_0000, 0x0100_0000_0001_0000) == 0x0100_0001_0001_0000;
    assert Rotate(0x0100_0001_0001_0100, R63.low, R63.high) == 0x0200_0002_0002_0200;
  }

  // ----- the sixteen-word round -----

  // The four positions a quarter round works on.
  datatype Position = Position(a: nat, b: nat, c: nat, d: nat)
  {
    predicate Valid()
    {
      a < 16 && b < 16 && c < 16 && d < 16 && a != b && a != c && a != d && b != c && b != d && c != d
    }
  }

  function QuadAt(v: Lanes16, p: Position): Quad
    requires p.Valid()
  {
    Quad(v[p.a], v[p.b], v[p.c], v[p.d])
  }

  function PutQuad(v: Lanes16, p: Position, q: Quad): Lanes16
    requires p.Valid()
  {
    v[p.a := q.a][p.b := q.b][p.c := q.c][p.d := q.d]
  }

  lemma PutQuadFacts(v: Lanes16, p: Position, q: Quad, r: Quad)
    requires p.Valid()
    ensures QuadAt(PutQuad(v, p, q), p) == q
    ensures PutQuad(PutQuad(v, p, q), p, r) == PutQuad(v, p, r)
    ensures PutQuad(v, p, QuadAt(v, p)) == v
  {
  }

  // Four column quarter rounds, then four diagonal ones (section 3.6 of RFC 9106).
  const SCHEDULE := [
    Position(0, 4, 8, 12), Position(1, 5, 9, 13), Position(2, 6, 10, 14), Position(3, 7, 11, 15),
    Position(0, 5, 10, 15), Position(1, 6, 11, 12), Position(2, 7, 8, 13), Position(3, 4, 9, 14)]

  function GBCall(v: Lanes16, k: nat): Lanes16
  {
    if k < |SCHEDULE| then PutQuad(v, SCHEDULE[k], GB(QuadAt(v, SCHEDULE[k]))) else v
  }

  ghost function UnGBCall(v: Lanes16, k: nat): Lanes16
  {
    if k < |SCHEDULE| then PutQuad(v, SCHEDULE[k], UnGB(QuadAt(v, SCHEDULE[k]))) else v
  }

  lemma GBCallInverse(v: Lanes16, k: nat)
    ensures UnGBCall(GBCall(v, k), k) == v && GBCall(UnGBCall(v, k), k) == v
  {
    if k < |SCHEDULE| {
      var p := SCHEDULE[k];
      GBInverse(QuadAt(v, p));
      PutQuadFacts(v, p, GB(QuadAt(v, p)), QuadAt(v, p));
      PutQuadFacts(v, p, UnGB(QuadAt(v, p)), QuadAt(v, p));
    }
  }

  // The quarter-round calls 0..n in order, and the undoing calls n-1..0.
  function RepeatRound(f: (Lanes16, nat) -> Lanes16, s: Lanes16, n: nat): Lanes16
  {
    if n == 0 then s else f(RepeatRound(f, s, n - 1), n - 1)
  }

  function RepeatRoundBack(h: (Lanes16, nat) -> Lanes16, s: Lanes16, n: nat): Lanes16
    decreases n
  {
    if n == 0 then s else RepeatRoundBack(h, h(s, n - 1), n - 1)
  }

  lemma {:induction false} RepeatRoundInverse(f: (Lanes16, nat) -> Lanes16, h: (Lanes16, nat) -> Lanes16, s: Lanes16, n: nat)
    requires forall x: Lanes16, k: nat :: h(f(x, k), k) == x && f(h(x, k), k) == x
    decreases n
    ensures RepeatRoundBack(h, RepeatRound(f, s, n), n) == s
    ensures RepeatRound(f, RepeatRoundBack(h, s, n), n) == s
  {
    if n > 0 {
      RepeatRoundInverse(f, h, s, n - 1);
      RepeatRoundInverse(f, h, h(s, n - 1), n - 1);
    }
  }

  function Round(v: Lanes16): Lanes16
  {
    RepeatRound(GBCall, v, |SCHEDULE|)
  }

  ghost function UnRound(v: Lanes16): Lanes16
  {
    RepeatRoundBack((x, k) => UnGBCall(x, k), v, |SCHEDULE|)
  }

  // The round is a bijection on sixteen words: UnRound is its inverse on both sides.
  lemma RoundIsBijection(v: Lanes16)
    ensures UnRound(Round(v)) == v && Round(UnRound(v)) == v
  {
    var h := (x: Lanes16, k: nat) => UnGBCall(x, k);
    forall x: Lanes16, k: nat
      ensures h(GBCall(x, k), k) == x && GBCall(h(x, k), k) == x
    {
      GBCallInverse(x, k);
    }
    RepeatRoundInverse(GBCall, h, v, |SCHEDULE|);
  }

  // Call i of the half that starts with call h.
  function Spot(h: nat, i: nat): Position
    requires h + i < |SCHEDULE|
  {
    SCHEDULE[h + i]
  }

  lemma Spots(i: nat)
    requires i < 4
    ensures Spot(0, i) == Position(i, i + 4, i + 8, i + 12)
    ensures Spot(4, i) == Position(i, (i + 1) % 4 + 4, (i + 2) % 4 + 8, (i + 3) % 4 + 12)
  {
  }

  ghost predicate Apart(p: Position, q: Position)
  {
    {p.a, p.b, p.c, p.d} !! {q.a, q.b, q.c, q.d}
  }

  // The calls of each half work on different words.
  lemma SpotsApart(h: nat, i: nat, k: nat)
    requires h in {0, 4} && i < 4 && k < 4 && i != k
    ensures Apart(Spot(h, i), Spot(h, k))
  {
    Spots(i);
    Spots(k);
  }

  lemma PutElsewhere(v: Lanes16, p: Position, q: Quad, o: Position)
    requires p.Valid() && o.Valid() && Apart(p, o)
    ensures QuadAt(PutQuad(v, p, q), o) == QuadAt(v, o)
  {
  }

  // The first n calls of a half have replaced their own words, and no others.
  ghost predicate HalfDone(before: Lanes16, after: Lanes16, h: nat, n: nat)
    requires h in {0, 4} && n <= 4
  {
    forall i :: 0 <= i < 4 ==>
      QuadAt(after, Spot(h, i)) == if i < n then GB(QuadAt(before, Spot(h, i))) else QuadAt(before, Spot(h, i))
  }

  lemma {:induction false} HalfOfRound(v: Lanes16, h: nat, n: nat)
    requires h in {0, 4} && n <= 4
    ensures HalfDone(RepeatRound(GBCall, v, h), RepeatRound(GBCall, v, h + n), h, n)
  {
    hide GB, PutQuad, QuadAt, Apart;
    if n > 0 {
      HalfOfRound(v, h, n - 1);
      var last, p := RepeatRound(GBCall, v, h + n - 1), Spot(h, n - 1);
      PutQuadFacts(last, p, GB(QuadAt(last, p)), QuadAt(last, p));
      forall i | 0 <= i < 4 && i != n - 1
        ensures QuadAt(PutQuad(last, p, GB(QuadAt(last, p))), Spot(h, i)) == QuadAt(last, Spot(h, i))
      {
        SpotsApart(h, n - 1, i);
        PutElsewhere(last, p, GB(QuadAt(last, p)), Spot(h, i));
      }
    }
  }

  // GB has been applied to column i, and to diagonal i (section 3.6 of RFC 9106).
  ghost predicate ColumnDone(v: Lanes16, w: Lanes16, i: nat)
    requires i < 4
  {
    Quad(w[i], w[i + 4], w[i + 8], w[i + 12]) == GB(Quad(v[i], v[i + 4], v[i + 8], v[i + 12]))
  }

  ghost predicate DiagonalDone(v: Lanes16, w: Lanes16, i: nat)
    requires i < 4
  {
    var j, k, l := (i + 1) % 4 + 4, (i + 2) % 4 + 8, (i + 3) % 4 + 12;
    Quad(w[i], w[j], w[k], w[l]) == GB(Quad(v[i], v[j], v[k], v[l]))
  }

  // The round is four calls of GB on the columns and then four on the diagonals: w is v after the first four.
  lemma RoundByCalls(v: Lanes16, w: Lanes16)
    requires forall i :: 0 <= i < 4 ==> ColumnDone(v, w, i)
    ensures forall i :: 0 <= i < 4 ==> DiagonalDone(w, Round(v), i)
  {
    hide GB, RepeatRound, HalfDone, ColumnDone, DiagonalDone;
    HalfOfRound(v, 0, 4);
    HalfOfRound(v, 4, 4);
    NoCalls(v);
    var x := RepeatRound(GBCall, v, 4);
    forall i | 0 <= i < 4
      ensures ColumnDone(v, x, i) && DiagonalDone(x, Round(v), i)
    {
      Column(v, x, i);
      Diagonal(x, Round(v), i);
    }
    SameColumns(v, w, x);
  }

  lemma Column(before: Lanes16, after: Lanes16, i: nat)
    requires i < 4 && HalfDone(before, after, 0, 4)
    ensures ColumnDone(before, after, i)
  {
    hide GB;
    Spots(i);
  }

  lemma Diagonal(before: Lanes16, after: Lanes16, i: nat)
    requires i < 4 && HalfDone(before, after, 4, 4)
    ensures DiagonalDone(before, after, i)
  {
    hide GB;
    Spots(i);
  }

  lemma SameColumns(v: Lanes16, w: Lanes16, x: Lanes16)
    requires forall i :: 0 <= i < 4 ==> ColumnDone(v, w, i) && ColumnDone(v, x, i)
    ensures w == x
  {
    hide ColumnDone;
    SameColumn(v, w, x, 0);
    SameColumn(v, w, x, 1);
    SameColumn(v, w, x, 2);
    SameColumn(v, w, x, 3);
  }

  lemma SameColumn(v: Lanes16, w: Lanes16, x: Lanes16, i: nat)
    requires i < 4 && ColumnDone(v, w, i) && ColumnDone(v, x, i)
    ensures w[i] == x[i] && w[i + 4] == x[i + 4] && w[i + 8] == x[i + 8] && w[i + 12] == x[i + 12]
  {
    hide GB;
  }

  lemma NoCalls(v: Lanes16)
    ensures RepeatRound(GBCall, v, 0) == v
  {
  }

  // ----- the 128-word block -----

  // Sixteen different positions of a block.
  ghost predicate Index16(ix: seq<nat>)
  {
    && |ix| == 16
    && (forall k :: 0 <= k < 16 ==> ix[k] < BLOCK_LENGTH)
    && (forall i, j :: 0 <= i < j < 16 ==> ix[i] != ix[j])
  }

  function Gather(s: Block, ix: seq<nat>): Lanes16
    requires Index16(ix)
  {
    seq(16, k requires 0 <= k < 16 => s[ix[k]])
  }

  // The first n words of v stored at the first n positions of ix.
  function Scatter(s: Block, ix: seq<nat>, v: Lanes16, n: nat): Block
    requires Index16(ix) && n <= 16
  {
    if n == 0 then s else Scatter(s, ix, v, n - 1)[ix[n - 1] := v[n - 1]]
  }

  lemma {:induction false} ScatterAt(s: Block, ix: seq<nat>, v: Lanes16, n: nat)
    requires Index16(ix) && n <= 16
    ensures forall k :: 0 <= k < n ==> Scatter(s, ix, v, n)[ix[k]] == v[k]
    ensures forall i :: 0 <= i < BLOCK_LENGTH && i !in ix[..n] ==> Scatter(s, ix, v, n)[i] == s[i]
  {
    if n > 0 {
      ScatterAt(s, ix, v, n - 1);
      assert ix[..n] == ix[..n - 1] + [ix[n - 1]];
    }
  }

  function RoundAt(s: Block, ix: seq<nat>): Block
    requires Index16(ix)
  {
    Scatter(s, ix, Round(Gather(s, ix)), 16)
  }

  ghost function UnRoundAt(s: Block, ix: seq<nat>): Block
    requires Index16(ix)
  {
    Scatter(s, ix, UnRound(Gather(s, ix)), 16)
  }

  // Storing v and then what was there before changes nothing.
  lemma ScatterBack(s: Block, ix: seq<nat>, v: Lanes16, w: Lanes16)
    requires Index16(ix)
    ensures Gather(Scatter(s, ix, v, 16), ix) == v
    ensures w == Gather(s, ix) ==> Scatter(Scatter(s, ix, v, 16), ix, w, 16) == s
  {
    ScatterAt(s, ix, v, 16);
    var t := Scatter(s, ix, v, 16);
    ScatterAt(t, ix, w, 16);
    assert ix[..16] == ix;
    if w == Gather(s, ix) {
      forall i | 0 <= i < BLOCK_LENGTH
        ensures Scatter(t, ix, w, 16)[i] == s[i]
      {
        if i in ix {
          var k :| 0 <= k < 16 && ix[k] == i;
          assert Scatter(t, ix, w, 16)[ix[k]] == w[k];
        }
      }
    }
  }

  lemma RoundAtInverse(s: Block, ix: seq<nat>)
    requires Index16(ix)
    ensures UnRoundAt(RoundAt(s, ix), ix) == s && RoundAt(UnRoundAt(s, ix), ix) == s
  {
    var g := Gather(s, ix);
    RoundIsBijection(g);
    ScatterBack(s, ix, Round(g), g);
    ScatterBack(s, ix, UnRound(g), g);
  }

  // t[16r .. 16r+16]
  function RowIndex(r: nat): seq<nat>
  {
    seq(16, k requires 0 <= k < 16 => 16 * r + k)
  }

  // t[2c], t[2c+1], t[16+2c], t[16+2c+1], ..., t[112+2c], t[112+2c+1]
  function ColumnIndex(c: nat): seq<nat>
  {
    seq(16, k requires 0 <= k < 16 => 16 * (k / 2) + 2 * c + k % 2)
  }

  // The eight row calls touch every word exactly once.
  lemma RowsPartitionBlock(i: nat, r: nat)
    requires i < BLOCK_LENGTH && r < 8
    ensures i in RowIndex(r) <==> r == i / 16
  {
    if r == i / 16 {
      assert RowIndex(r)[i % 16] == i;
    }
    if i in RowIndex(r) {
      var k :| 0 <= k < 16 && RowIndex(r)[k] == i;
    }
  }

  lemma ColumnPosition(c: nat, k: nat, i: nat)
    requires c < 8 && k < 16 && i == 16 * (k / 2) + 2 * c + k % 2
    ensures i / 16 == k / 2 && i % 16 == 2 * c + k % 2 && (i % 16) / 2 == c && i % 2 == k % 2
  {
    DivModUnique(i, 16, k / 2, 2 * c + k % 2);
    DivModUnique(i % 16, 2, c, k % 2);
  }

  // The eight column calls touch every word exactly once.
  lemma ColumnsPartitionBlock(i: nat, c: nat)
    requires i < BLOCK_LENGTH && c < 8
    ensures i in ColumnIndex(c) <==> c == (i % 16) / 2
  {
    if c == (i % 16) / 2 {
      var k := 2 * (i / 16) + i % 2;
      DivModUnique(k, 2, i / 16, i % 2);
      assert ColumnIndex(c)[k] == i;
    }
    if i in ColumnIndex(c) {
      var k :| 0 <= k < 16 && ColumnIndex(c)[k] == i;
      ColumnPosition(c, k, i);
    }
  }

  lemma IndexesValid()
    ensures forall n: nat :: n < 8 ==> Index16(RowIndex(n)) && Index16(ColumnIndex(n))
  {
  }

  // The words each row and column call is given, in the order of the source.
  lemma RowWords(s: Block, i: nat)
    requires i < 8
    ensures Index16(RowIndex(i)) && Gather(s, RowIndex(i)) == s[16 * i..16 * i + 16]
  {
  }

  lemma ColumnWords(s: Block, c: nat)
    requires c < 8
    ensures var i := 2 * c;
            Index16(ColumnIndex(c)) && Gather(s, ColumnIndex(c)) ==
              [s[i], s[i + 1], s[16 + i], s[16 + i + 1], s[32 + i], s[32 + i + 1], s[48 + i], s[48 + i + 1],
               s[64 + i], s[64 + i + 1], s[80 + i], s[80 + i + 1], s[96 + i], s[96 + i + 1], s[112 + i], s[112 + i + 1]]
  {
    IndexesValid();
    forall k | 0 <= k < 16
      ensures ColumnIndex(c)[k] == 16 * (k / 2) + 2 * c + k % 2
    {
    }
  }

  const PASS: nat := 8

  // The k-th row call and the k-th column call.
  function RowCall(s: Block, k: nat): Block
  {
    IndexesValid();
    if k < PASS then RoundAt(s, RowIndex(k)) else s
  }

  function ColumnCall(s: Block, k: nat): Block
  {
    IndexesValid();
    if k < PASS then RoundAt(s, ColumnIndex(k)) else s
  }

  // The row or column calls 0..n in order, and the undoing calls n-1..0.
  function Repeat(f: (Block, nat) -> Block, s: Block, n: nat): Block
  {
    if n == 0 then s else f(Repeat(f, s, n - 1), n - 1)
  }

  function RepeatBack(h: (Block, nat) -> Block, s: Block, n: nat): Block
    decreases n
  {
    if n == 0 then s else RepeatBack(h, h(s, n - 1), n - 1)
  }

  lemma {:induction false} RepeatInverse(f: (Block, nat) -> Block, h: (Block, nat) -> Block, s: Block, n: nat)
    requires forall x: Block, k: nat :: h(f(x, k), k) == x && f(h(x, k), k) == x
    decreases n
    ensures RepeatBack(h, Repeat(f, s, n), n) == s
    ensures Repeat(f, RepeatBack(h, s, n), n) == s
  {
    if n > 0 {
      RepeatInverse(f, h, s, n - 1);
      RepeatInverse(f, h, h(s, n - 1), n - 1);
    }
  }

  ghost function UnRowCall(s: Block, k: nat): Block
  {
    IndexesValid();
    if k < PASS then UnRoundAt(s, RowIndex(k)) else s
  }

  ghost function UnColumnCall(s: Block, k: nat): Block
  {
    IndexesValid();
    if k < PASS then UnRoundAt(s, ColumnIndex(k)) else s
  }

  lemma CallsInverse(s: Block, k: nat)
    ensures UnRowCall(RowCall(s, k), k) == s && RowCall(UnRowCall(s, k), k) == s
    ensures UnColumnCall(ColumnCall(s, k), k) == s && ColumnCall(UnColumnCall(s, k), k) == s
  {
    IndexesValid();
    if k < PASS {
      RoundAtInverse(s, RowIndex(k));
      RoundAtInverse(s, ColumnIndex(k));
    }
  }

  // Row pass, then column pass (section 3.5 of RFC 9106).
  function Permute(s: Block): Block
  {
    Repeat(ColumnCall, Repeat(RowCall, s, PASS), PASS)
  }

  ghost function UnPermute(s: Block): Block
  {
    RepeatBack((x, k) => UnRowCall(x, k), RepeatBack((x, k) => UnColumnCall(x, k), s, PASS), PASS)
  }

  // The whole block permutation is a bijection on 128-word blocks.
  lemma PermuteIsBijection(s: Block)
    ensures UnPermute(Permute(s)) == s && Permute(UnPermute(s)) == s
  {
    var ur := (x: Block, k: nat) => UnRowCall(x, k);
    var uc := (x: Block, k: nat) => UnColumnCall(x, k);
    forall x: Block, k: nat
      ensures ur(RowCall(x, k), k) == x && RowCall(ur(x, k), k) == x
      ensures uc(ColumnCall(x, k), k) == x && ColumnCall(uc(x, k), k) == x
    {
      CallsInverse(x, k);
    }
    RepeatInverse(RowCall, ur, s, PASS);
    RepeatInverse(ColumnCall, uc, Repeat(RowCall, s, PASS), PASS);
    RepeatInverse(ColumnCall, uc, s, PASS);
    RepeatInverse(RowCall, ur, RepeatBack(uc, s, PASS), PASS);
  }

  function BlockXor(x: Block, y: Block): Block
  {
    seq(BLOCK_LENGTH, i requires 0 <= i < BLOCK_LENGTH => Xor(x[i], y[i]))
  }

  // The order of xors does not matter.
  lemma BlockXorExchange(x: Block, y: Block, z: Block)
    ensures BlockXor(BlockXor(x, y), z) == BlockXor(BlockXor(x, z), y)
    ensures BlockXor(x, y) == BlockXor(y, x)
  {
    forall i | 0 <= i < BLOCK_LENGTH
      ensures Xor(Xor(x[i], y[i]), z[i]) == Xor(Xor(x[i], z[i]), y[i]) && Xor(x[i], y[i]) == Xor(y[i], x[i])
    {
      XorBitsExchange(x[i], y[i], z[i], 64);
    }
  }

  // The compression function G: R = X xor Y, Z = permuted R, result Z xor R.
  function Compress(x: Block, y: Block): Block
  {
    var r := BlockXor(x, y);
    BlockXor(r, Permute(r))
  }

  // ----- the loops of the source -----

  // One of the eight groups of statements of the source.
  method QuarterRound(a: Word, b: Word, c: Word, d: Word) returns (a': Word, b': Word, c': Word, d': Word)
    ensures Quad(a', b', c', d') == GB(Quad(a, b, c, d))
  {
    GBEquations(a, b, c, d);
    hide GB, Xor, RotateRight;
    a' := (a + b + 2 * ((a % W32) * (b % W32))) % W64;
    d' := RotateRight(Xor(d, a'), 32);
    c' := (c + d' + 2 * ((c % W32) * (d' % W32))) % W64;
    b' := RotateRight(Xor(b, c'), 24);
    a' := (a' + b' + 2 * ((a' % W32) * (b' % W32))) % W64;
    d' := RotateRight(Xor(d', a'), 16);
    c' := (c' + d' + 2 * ((c' % W32) * (d' % W32))) % W64;
    b' := RotateRight(Xor(b', c'), 63);
  }

  // The first and the last four groups, unrolled on sixteen locals.
  method Columns(v: Lanes16) returns (w: Lanes16)
    ensures forall i :: 0 <= i < 4 ==> ColumnDone(v, w, i)
  {
    hide GB;
    var v00, v01, v02, v03 := v[0], v[1], v[2], v[3];
    var v04, v05, v06, v07 := v[4], v[5], v[6], v[7];
    var v08, v09, v10, v11 := v[8], v[9], v[10], v[11];
    var v12, v13, v14, v15 := v[12], v[13], v[14], v[15];
    v00, v04, v08, v12 := QuarterRound(v00, v04, v08, v12);
    v01, v05, v09, v13 := QuarterRound(v01, v05, v09, v13);
    v02, v06, v10, v14 := QuarterRound(v02, v06, v10, v14);
    v03, v07, v11, v15 := QuarterRound(v03, v07, v11, v15);
    w := [v00, v01, v02, v03, v04, v05, v06, v07, v08, v09, v10, v11, v12, v13, v14, v15];
    assert ColumnDone(v, w, 0) && ColumnDone(v, w, 1) && ColumnDone(v, w, 2) && ColumnDone(v, w, 3);
  }

  method Diagonals(v: Lanes16) returns (w: Lanes16)
    ensures forall i :: 0 <= i < 4 ==> DiagonalDone(v, w, i)
  {
    hide GB;
    var v00, v01, v02, v03 := v[0], v[1], v[2], v[3];
    var v04, v05, v06, v07 := v[4], v[5], v[6], v[7];
    var v08, v09, v10, v11 := v[8], v[9], v[10], v[11];
    var v12, v13, v14, v15 := v[12], v[13], v[14], v[15];
    v00, v05, v10, v15 := QuarterRound(v00, v05, v10, v15);
    v01, v06, v11, v12 := QuarterRound(v01, v06, v11, v12);
    v02, v07, v08, v13 := QuarterRound(v02, v07, v08, v13);
    v03, v04, v09, v14 := QuarterRound(v03, v04, v09, v14);
    w := [v00, v01, v02, v03, v04, v05, v06, v07, v08, v09, v10, v11, v12, v13, v14, v15];
    assert DiagonalDone(v, w, 0) && DiagonalDone(v, w, 1) && DiagonalDone(v, w, 2) && DiagonalDone(v, w, 3);
  }

  method UnrolledRound(v: Lanes16) returns (r: Lanes16)
    ensures r == Round(v)
  {
    hide Round, ColumnDone, DiagonalDone;
    var w := Columns(v);
    r := Diagonals(w);
    RoundByCalls(v, w);
    SameDiagonals(w, r, Round(v));
  }

  lemma SameDiagonals(w: Lanes16, r: Lanes16, x: Lanes16)
    requires forall i :: 0 <= i < 4 ==> DiagonalDone(w, r, i) && DiagonalDone(w, x, i)
    ensures r == x
  {
    hide DiagonalDone;
    SameDiagonal(w, r, x, 0, 5, 10, 15);
    SameDiagonal(w, r, x, 1, 6, 11, 12);
    SameDiagonal(w, r, x, 2, 7, 8, 13);
    SameDiagonal(w, r, x, 3, 4, 9, 14);
  }

  lemma SameDiagonal(w: Lanes16, r: Lanes16, x: Lanes16, i: nat, j: nat, k: nat, l: nat)
    requires i < 4 && j == (i + 1) % 4 + 4 && k == (i + 2) % 4 + 8 && l == (i + 3) % 4 + 12
    requires DiagonalDone(w, r, i) && DiagonalDone(w, x, i)
    ensures r[i] == x[i] && r[j] == x[j] && r[k] == x[k] && r[l] == x[l]
  {
    hide GB;
  }

  // Sixteen loads, the round, sixteen stores.
  method BlamkaGeneric(t: array<Word>, ix: seq<nat>)
    requires t.Length == BLOCK_LENGTH && Index16(ix)
    modifies t
    ensures t[..] == RoundAt(old(t[..]), ix)
  {
    ghost var before: Block := t[..];
    var loaded := seq(16, k requires 0 <= k < 16 reads t => t[ix[k]]);
    assert loaded == Gather(before, ix);
    var v := UnrolledRound(loaded);
    for k := 0 to 16
      invariant t[..] == Scatter(before, ix, v, k)
    {
      t[ix[k]] := v[k];
    }
  }

  // The first loop: t = in1 xor in2.
  method XorInto(t: array<Word>, in1: array<Word>, in2: array<Word>)
    requires t.Length == in1.Length == in2.Length == BLOCK_LENGTH && t != in1 && t != in2
    modifies t
    ensures t[..] == BlockXor(in1[..], in2[..])
  {
    for i := 0 to BLOCK_LENGTH
      invariant forall k :: 0 <= k < i ==> t[k] == Xor(in1[k], in2[k])
    {
      t[i] := Xor(in1[i], in2[i]);
    }
  }

  // The last loop reads index i of every array before it writes index i of out.
  method StoreResult(out: array<Word>, in1: array<Word>, in2: array<Word>, t: array<Word>, xor: bool)
    requires out.Length == in1.Length == in2.Length == t.Length == BLOCK_LENGTH && t != out
    modifies out
    ensures out[..] == var z := BlockXor(BlockXor(old(in1[..]), old(in2[..])), old(t[..]));
                       if xor then BlockXor(old(out[..]), z) else z
  {
    for i := 0 to BLOCK_LENGTH
      invariant forall k :: i <= k < BLOCK_LENGTH ==>
                  out[k] == old(out[k]) && in1[k] == old(in1[k]) && in2[k] == old(in2[k])
      invariant forall k :: 0 <= k < i ==>
                  out[k] == var z := Xor(Xor(old(in1[k]), old(in2[k])), old(t[k]));
                            if xor then Xor(old(out[k]), z) else z
    {
      var word := Xor(Xor(in1[i], in2[i]), t[i]);
      out[i] := if xor then Xor(out[i], word) else word;
    }
  }

  // out may be the same array as in1 or in2, as in the address generator.
  method ProcessBlockGeneric(out: array<Word>, in1: array<Word>, in2: array<Word>, xor: bool)
    requires out.Length == in1.Length == in2.Length == BLOCK_LENGTH
    modifies out
    ensures out[..] == var z := Compress(old(in1[..]), old(in2[..]));
                       if xor then BlockXor(old(out[..]), z) else z
  {
    IndexesValid();
    var t := new Word[BLOCK_LENGTH](_ => 0);
    XorInto(t, in1, in2);
    ghost var r: Block := t[..];
    for row := 0 to PASS
      invariant t[..] == Repeat(RowCall, r, row)
      invariant unchanged(in1) && unchanged(in2) && unchanged(out)
    {
      BlamkaGeneric(t, RowIndex(row));
    }
    for column := 0 to PASS
      invariant t[..] == Repeat(ColumnCall, Repeat(RowCall, r, PASS), column)
      invariant unchanged(in1) && unchanged(in2) && unchanged(out)
    {
      BlamkaGeneric(t, ColumnIndex(column));
    }
    StoreResult(out, in1, in2, t, xor);
  }
}
