/**
  Powers of two, and the word-level helpers of include/math.h and lib/math.c on 32-bit machine words.
 */
module Words {

  // 2^k
  function Pow2(k: nat): (p: nat)
    ensures p >= 1
  {
    if k == 0 then 1 else 2 * Pow2(k - 1)
  }

  predicate IsPow2Word(x: bv32) {
    x & (x - 1) == 0
  }

  // next_pow_of_2: smear the top bit downwards, then add one.
  function NextPow2(x: bv32): bv32 {
    if IsPow2Word(x) then x
    else
      var x1 := x | (x >> 1);
      var x2 := x1 | (x1 >> 2);
      var x4 := x2 | (x2 >> 4);
      var x8 := x4 | (x4 >> 8);
      var x16 := x8 | (x8 >> 16);
      x16 + 1
  }

  // The table of log_of_2, slot by slot.
  function DeBruijnPosition(slot: nat): nat
    requires slot < 32
  {
    match slot
    case 0 => 0 case 1 => 1 case 2 => 28 case 3 => 2
    case 4 => 29 case 5 => 14 case 6 => 24 case 7 => 3
    case 8 => 30 case 9 => 22 case 10 => 20 case 11 => 15
    case 12 => 25 case 13 => 17 case 14 => 4 case 15 => 8
    case 16 => 31 case 17 => 27 case 18 => 13 case 19 => 23
    case 20 => 21 case 21 => 19 case 22 => 16 case 23 => 7
    case 24 => 26 case 25 => 12 case 26 => 18 case 27 => 6
    case 28 => 11 case 29 => 5 case 30 => 10 case _ => 9
  }

  function DeBruijnSlot(n: bv32): bv32
    ensures DeBruijnSlot(n) <= 31
  {
    ((n * 0x077CB531) >> 27) & 0x1F
  }

  lemma SlotInRange(slot: bv32)
    requires slot <= 31
    ensures slot as int < 32
  {
  }

  // log_of_2: a de Bruijn multiplication picks the table entry.
  function LogOf2(number: bv32): nat {
    var n := if IsPow2Word(number) then number else NextPow2(number) >> 1;
    var slot := DeBruijnSlot(n);
    SlotInRange(slot);
    DeBruijnPosition(slot as int)
  }

  lemma Pow2Monotone(j: nat, k: nat)
    requires j <= k
    ensures Pow2(j) <= Pow2(k)
    ensures j < k ==> 2 * Pow2(j) <= Pow2(k)
  {
    if j < k { Pow2Monotone(j, k - 1); }
  }

  lemma DoubledProduct(a: nat, b: nat)
    ensures (2 * a) * b == 2 * (a * b)
  {
  }

  lemma {:induction false} Pow2Add(j: nat, k: nat)
    ensures Pow2(j + k) == Pow2(j) * Pow2(k)
  {
    if j > 0 {
      Pow2Add(j - 1, k);
      DoubledProduct(Pow2(j - 1), Pow2(k));
      assert (j - 1) + k == (j + k) - 1;
    }
  }

  lemma Pow2Injective(j: nat, k: nat)
    requires Pow2(j) == Pow2(k)
    ensures j == k
  {
    if j < k { Pow2Monotone(j, k); }
    if k < j { Pow2Monotone(k, j); }
  }

  // Every second power up to the size of a word; each follows from the one before, and the others by doubling.
  lemma EvenPowers()
    ensures Pow2(0) == 0x1 && Pow2(2) == 0x4 && Pow2(4) == 0x10 && Pow2(6) == 0x40
    ensures Pow2(8) == 0x100 && Pow2(10) == 0x400 && Pow2(12) == 0x1000 && Pow2(14) == 0x4000
    ensures Pow2(16) == 0x1_0000 && Pow2(18) == 0x4_0000 && Pow2(20) == 0x10_0000 && Pow2(22) == 0x40_0000
    ensures Pow2(24) == 0x100_0000 && Pow2(26) == 0x400_0000 && Pow2(28) == 0x1000_0000 && Pow2(30) == 0x4000_0000
    ensures Pow2(32) == 0x1_0000_0000
  {
    Pow2Add(8, 8);
    Pow2Add(16, 16);
  }

  lemma DeBruijnSlots()
    ensures DeBruijnSlot(0x1) == 0
    ensures DeBruijnSlot(0x2) == 1
    ensures DeBruijnSlot(0x4) == 3
    ensures DeBruijnSlot(0x8) == 7
    ensures DeBruijnSlot(0x10) == 14
    ensures DeBruijnSlot(0x20) == 29
    ensures DeBruijnSlot(0x40) == 27
    ensures DeBruijnSlot(0x80) == 23
    ensures DeBruijnSlot(0x100) == 15
    ensures DeBruijnSlot(0x200) == 31
    ensures DeBruijnSlot(0x400) == 30
    ensures DeBruijnSlot(0x800) == 28
    ensures DeBruijnSlot(0x1000) == 25
    ensures DeBruijnSlot(0x2000) == 18
    ensures DeBruijnSlot(0x4000) == 5
    ensures DeBruijnSlot(0x8000) == 11
    ensures DeBruijnSlot(0x10000) == 22
    ensures DeBruijnSlot(0x20000) == 13
    ensures DeBruijnSlot(0x40000) == 26
    ensures DeBruijnSlot(0x80000) == 21
    ensures DeBruijnSlot(0x100000) == 10
    ensures DeBruijnSlot(0x200000) == 20
    ensures DeBruijnSlot(0x400000) == 9
    ensures DeBruijnSlot(0x800000) == 19
    ensures DeBruijnSlot(0x1000000) == 6
    ensures DeBruijnSlot(0x2000000) == 12
    ensures DeBruijnSlot(0x4000000) == 24
    ensures DeBruijnSlot(0x8000000) == 17
    ensures DeBruijnSlot(0x10000000) == 2
    ensures DeBruijnSlot(0x20000000) == 4
    ensures DeBruijnSlot(0x40000000) == 8
    ensures DeBruijnSlot(0x80000000) == 16
  {
  }

  lemma LogOfOneBit(r: bv32)
    requires IsPow2Word(r)
    ensures DeBruijnSlot(r) as int < 32
    ensures LogOf2(r) == DeBruijnPosition(DeBruijnSlot(r) as int)
  {
    SlotInRange(DeBruijnSlot(r));
  }

  lemma CompareLiterals0(x: bv32)
    ensures x <= 0x1 <==> x as int <= 0x1
    ensures x <= 0x2 <==> x as int <= 0x2
    ensures x <= 0x4 <==> x as int <= 0x4
    ensures x <= 0x8 <==> x as int <= 0x8
    ensures x <= 0x10 <==> x as int <= 0x10
    ensures x <= 0x20 <==> x as int <= 0x20
    ensures x <= 0x40 <==> x as int <= 0x40
    ensures x <= 0x80 <==> x as int <= 0x80
  {
  }

  lemma CompareLiterals1(x: bv32)
    ensures x <= 0x100 <==> x as int <= 0x100
    ensures x <= 0x200 <==> x as int <= 0x200
    ensures x <= 0x400 <==> x as int <= 0x400
    ensures x <= 0x800 <==> x as int <= 0x800
    ensures x <= 0x1000 <==> x as int <= 0x1000
    ensures x <= 0x2000 <==> x as int <= 0x2000
    ensures x <= 0x4000 <==> x as int <= 0x4000
    ensures x <= 0x8000 <==> x as int <= 0x8000
  {
  }

  lemma CompareLiterals2(x: bv32)
    ensures x <= 0x10000 <==> x as int <= 0x10000
    ensures x <= 0x20000 <==> x as int <= 0x20000
    ensures x <= 0x40000 <==> x as int <= 0x40000
    ensures x <= 0x80000 <==> x as int <= 0x80000
    ensures x <= 0x100000 <==> x as int <= 0x100000
    ensures x <= 0x200000 <==> x as int <= 0x200000
    ensures x <= 0x400000 <==> x as int <= 0x400000
    ensures x <= 0x800000 <==> x as int <= 0x800000
  {
  }

  lemma CompareLiterals3(x: bv32)
    ensures x <= 0x1000000 <==> x as int <= 0x1000000
    ensures x <= 0x2000000 <==> x as int <= 0x2000000
    ensures x <= 0x4000000 <==> x as int <= 0x4000000
    ensures x <= 0x8000000 <==> x as int <= 0x8000000
    ensures x <= 0x10000000 <==> x as int <= 0x10000000
    ensures x <= 0x20000000 <==> x as int <= 0x20000000
    ensures x <= 0x40000000 <==> x as int <= 0x40000000
    ensures x <= 0x80000000 <==> x as int <= 0x80000000
  {
  }

  // A nonzero word that passes is_pow_of_2 has exactly one bit set, and the table finds which.
  lemma OneBit(r: bv32) returns (k: nat)
    requires IsPow2Word(r) && r != 0
    ensures k < 32 && r as int == Pow2(k) && LogOf2(r) == k
    ensures (r >> 1) as int == Pow2(k) / 2
  {
    EvenPowers();
    DeBruijnSlots();
    LogOfOneBit(r);
    if r == 0x1 {
      k := 0;
    } else if r == 0x2 {
      k := 1;
    } else if r == 0x4 {
      k := 2;
    } else if r == 0x8 {
      k := 3;
    } else if r == 0x10 {
      k := 4;
    } else if r == 0x20 {
      k := 5;
    } else if r == 0x40 {
      k := 6;
    } else if r == 0x80 {
      k := 7;
    } else if r == 0x100 {
      k := 8;
    } else if r == 0x200 {
      k := 9;
    } else if r == 0x400 {
      k := 10;
    } else if r == 0x800 {
      k := 11;
    } else if r == 0x1000 {
      k := 12;
    } else if r == 0x2000 {
      k := 13;
    } else if r == 0x4000 {
      k := 14;
    } else if r == 0x8000 {
      k := 15;
    } else if r == 0x10000 {
      k := 16;
    } else if r == 0x20000 {
      k := 17;
    } else if r == 0x40000 {
      k := 18;
    } else if r == 0x80000 {
      k := 19;
    } else if r == 0x100000 {
      k := 20;
    } else if r == 0x200000 {
      k := 21;
    } else if r == 0x400000 {
      k := 22;
    } else if r == 0x800000 {
      k := 23;
    } else if r == 0x1000000 {
      k := 24;
    } else if r == 0x2000000 {
      k := 25;
    } else if r == 0x4000000 {
      k := 26;
    } else if r == 0x8000000 {
      k := 27;
    } else if r == 0x10000000 {
      k := 28;
    } else if r == 0x20000000 {
      k := 29;
    } else if r == 0x40000000 {
      k := 30;
    } else {
      k := 31;
    }
  }

  lemma CompareWithOneBit(x: bv32, r: bv32)
    requires IsPow2Word(r) && r != 0
    ensures x <= r <==> x as int <= r as int
  {
    CompareLiterals0(x); CompareLiterals1(x); CompareLiterals2(x); CompareLiterals3(x);
    var k := OneBit(r);
  }

  lemma SmearBrackets(x: bv32)
    requires 1 <= x <= 0x8000_0000
    ensures IsPow2Word(NextPow2(x)) && NextPow2(x) != 0
    ensures (NextPow2(x) >> 1) < x <= NextPow2(x)
  {
  }

  lemma HalfOfOneBit(r: bv32)
    requires IsPow2Word(r)
    ensures IsPow2Word(r >> 1)
  {
  }

  lemma NonzeroWord(x: bv32)
    requires x != 0
    ensures x as int > 0
  {
    if x as int == 0 { EqualValues(x, 0); }
  }

  // A comparison with a one-bit word or 0, as numbers.
  lemma AboveHalf(x: bv32, h: bv32, p: nat)
    requires IsPow2Word(h) && h < x && h as int == p
    ensures p < x as int
  {
    if h == 0 { NonzeroWord(x); } else { CompareWithOneBit(x, h); }
  }

  lemma HalfIsTooSmall(x: bv32, r: bv32, k: nat)
    requires IsPow2Word(r) && r != 0 && r as int == Pow2(k) && (r >> 1) < x && k > 0
    ensures Pow2(k - 1) < x as int
  {
    var j := OneBit(r);
    Pow2Injective(j, k);
    HalfOfOneBit(r);
    AboveHalf(x, r >> 1, Pow2(k - 1));
  }

  lemma LeastPower(v: nat, k: nat)
    requires k > 0 ==> Pow2(k - 1) < v
    ensures forall j: nat :: v <= Pow2(j) ==> k <= j
  {
    forall j: nat | v <= Pow2(j) ensures k <= j {
      if j < k { Pow2Monotone(j, k - 1); }
    }
  }

  // next_pow_of_2 is the least power of two that is at least x, and log_of_2 its exact exponent.
  lemma NextPow2IsLeast(x: bv32) returns (k: nat)
    requires 1 <= x <= 0x8000_0000
    ensures k < 32 && NextPow2(x) as int == Pow2(k) && LogOf2(NextPow2(x)) == k
    ensures x as int <= Pow2(k)
    ensures forall j: nat :: x as int <= Pow2(j) ==> k <= j
  {
    SmearBrackets(x);
    k := BoundOfOneBit(x, NextPow2(x));
    LeastPower(x as int, k);
  }

  lemma BoundOfOneBit(x: bv32, r: bv32) returns (k: nat)
    requires IsPow2Word(r) && r != 0 && (r >> 1) < x <= r
    ensures k < 32 && r as int == Pow2(k) && LogOf2(r) == k
    ensures x as int <= Pow2(k) && (k > 0 ==> Pow2(k - 1) < x as int)
  {
    k := OneBit(r);
    CompareWithOneBit(x, r);
    if k > 0 { HalfIsTooSmall(x, r, k); }
  }

  // Rounding up is useful exactly up to 2^31; above it the addition wraps round to 0.
  lemma NextPow2WrapsAbove(x: bv32)
    ensures x <= 0x8000_0000 <==> x <= NextPow2(x)
    ensures x > 0x8000_0000 ==> NextPow2(x) == 0
  {
  }

  predicate IsPowerOf2(x: nat) {
    x == 1 || (x > 1 && x % 2 == 0 && IsPowerOf2(x / 2))
  }

  lemma PowerOf2Exponent(x: nat) returns (k: nat)
    requires IsPowerOf2(x)
    ensures x == Pow2(k)
  {
    if x == 1 {
      k := 0;
    } else {
      var j := PowerOf2Exponent(x / 2);
      k := j + 1;
    }
  }

  lemma Pow2IsPowerOf2(k: nat)
    ensures IsPowerOf2(Pow2(k))
  {
  }

  lemma NotBetweenPowers(x: nat, k: nat)
    requires Pow2(k) < x < 2 * Pow2(k)
    ensures !IsPowerOf2(x)
  {
    if IsPowerOf2(x) {
      var j := PowerOf2Exponent(x);
      if j <= k { Pow2Monotone(j, k); } else { Pow2Monotone(k, j); }
    }
  }

  lemma EqualValues(x: bv32, y: bv32)
    requires x as int == y as int
    ensures x == y
  {
    assert (x as int) as bv32 == x && (y as int) as bv32 == y;
  }

  lemma DifferentValues(x: bv32, y: bv32)
    requires x != y
    ensures x as int != y as int
  {
    if x as int == y as int { EqualValues(x, y); }
  }

  lemma LessIsAtMost(w: bv32, r: bv32)
    requires w < r
    ensures w <= r
  {
  }

  lemma LessDiffers(w: bv32, r: bv32)
    requires w < r
    ensures w != r
  {
  }

  lemma BetweenBitsRejected(w: bv32, r: bv32)
    requires IsPow2Word(r) && r != 0 && (r >> 1) < w < r
    ensures !IsPowerOf2(w as int)
  {
    LessIsAtMost(w, r);
    LessDiffers(w, r);
    LessDiffers(0, w);
    BelowOneBitRejected(w, r);
  }

  lemma BelowOneBitRejected(w: bv32, r: bv32)
    requires IsPow2Word(r) && r != 0 && (r >> 1) < w && w <= r && w != r && w != 0
    ensures !IsPowerOf2(w as int)
  {
    var k := BoundOfOneBit(w, r);
    DifferentValues(w, r);
    NonzeroWord(w);
    StrictlyBetween(w as int, k);
  }

  lemma StrictlyBetween(v: nat, k: nat)
    requires 0 < v < Pow2(k) && (k > 0 ==> Pow2(k - 1) < v)
    ensures !IsPowerOf2(v)
  {
    NotBetweenPowers(v, k - 1);
  }

  lemma AboveTopBitRejected(w: bv32)
    requires w > 0x8000_0000
    ensures !IsPowerOf2(w as int)
  {
    EvenPowers();
    CompareLiterals3(w);
    NotBetweenPowers(w as int, 31);
  }

  lemma BracketOfNonPower(w: bv32)
    requires 1 <= w <= 0x8000_0000 && !IsPow2Word(w)
    ensures IsPow2Word(NextPow2(w)) && NextPow2(w) != 0 && (NextPow2(w) >> 1) < w < NextPow2(w)
  {
  }

  lemma OneBitIsPowerOf2(w: bv32)
    requires IsPow2Word(w) && w != 0
    ensures IsPowerOf2(w as int)
  {
    var k := OneBit(w);
    Pow2IsPowerOf2(k);
  }

  // The bit trick of is_pow_of_2 decides powers of two on every nonzero word.
  lemma BitTrickDecides(w: bv32)
    requires w != 0
    ensures IsPow2Word(w) <==> IsPowerOf2(w as int)
  {
    if IsPow2Word(w) {
      OneBitIsPowerOf2(w);
    } else if w <= 0x8000_0000 {
      BracketOfNonPower(w);
      BetweenBitsRejected(w, NextPow2(w));
    } else {
      AboveTopBitRejected(w);
    }
  }

  // ----- Bitwise or on numbers -----

  function BitOr(a: nat, b: nat): nat {
    if a == 0 && b == 0 then 0
    else 2 * BitOr(a / 2, b / 2) + (if a % 2 == 1 || b % 2 == 1 then 1 else 0)
  }

  lemma {:induction false} BitOrZero(a: nat)
    ensures BitOr(a, 0) == a && BitOr(0, a) == a
  {
    if a > 0 { BitOrZero(a / 2); }
  }

  // Numbers that occupy different bits: or is addition.
  lemma {:induction false} BitOrDisjoint(a: nat, b: nat, k: nat)
    requires b < Pow2(k)
    ensures BitOr(a * Pow2(k), b) == a * Pow2(k) + b
  {
    if k == 0 {
      BitOrZero(a);
    } else {
      var p := a * Pow2(k - 1);
      DoubledProduct(Pow2(k - 1), a);
      assert a * Pow2(k) == 2 * p;
      BitOrDisjoint(a, b / 2, k - 1);
      if 2 * p == 0 && b == 0 {
      } else {
        assert (2 * p) / 2 == p && (2 * p) % 2 == 0;
      }
    }
  }

  lemma {:induction false} BitOrGrows(a: nat, b: nat)
    ensures a <= BitOr(a, b)
  {
    if a != 0 { BitOrGrows(a / 2, b / 2); }
  }

  lemma {:induction false} BitOrCommutes(a: nat, b: nat)
    ensures BitOr(a, b) == BitOr(b, a)
  {
    if a != 0 || b != 0 { BitOrCommutes(a / 2, b / 2); }
  }

  // Bitwise or works on the high and on the low bits separately.
  lemma {:induction false} BitOrSplit(ah: nat, al: nat, bh: nat, bl: nat, k: nat, x: nat, y: nat, z: nat)
    requires al < Pow2(k) && bl < Pow2(k)
    requires x == ah * Pow2(k) && y == bh * Pow2(k) && z == BitOr(ah, bh) * Pow2(k)
    ensures BitOr(al, bl) < Pow2(k) && BitOr(x + al, y + bl) == z + BitOr(al, bl)
  {
    if k == 0 {
      SplitNothing(ah, al, bh, bl, x, y, z);
    } else {
      var m, x', y', z' := Pow2(k - 1), HalfProduct(ah, k), HalfProduct(bh, k), HalfProduct(BitOr(ah, bh), k);
      BitOrSplit(ah, al / 2, bh, bl / 2, k - 1, x', y', z');
      SplitStep(x', y', z', al, bl);
    }
  }

  lemma SplitNothing(ah: nat, al: nat, bh: nat, bl: nat, x: nat, y: nat, z: nat)
    requires al < 1 && bl < 1 && x == ah * 1 && y == bh * 1 && z == BitOr(ah, bh) * 1
    ensures BitOr(al, bl) < 1 && BitOr(x + al, y + bl) == z + BitOr(al, bl)
  {
    assert BitOr(0, 0) == 0;
  }

  function HalfProduct(a: nat, k: nat): (h: nat)
    requires k > 0
    ensures h == a * Pow2(k - 1) && a * Pow2(k) == 2 * h
  {
    TwiceTimes(a, Pow2(k - 1), Pow2(k));
    a * Pow2(k - 1)
  }

  lemma TwiceTimes(a: nat, m: nat, p: nat)
    requires p == 2 * m
    ensures a * p == 2 * (a * m)
  {
  }

  lemma SplitStep(x: nat, y: nat, z: nat, al: nat, bl: nat)
    requires BitOr(x + al / 2, y + bl / 2) == z + BitOr(al / 2, bl / 2)
    ensures BitOr(2 * x + al, 2 * y + bl) == 2 * z + BitOr(al, bl)
    ensures BitOr(al, bl) <= 2 * BitOr(al / 2, bl / 2) + 1
  {
    HalfOfSum(x, al);
    HalfOfSum(y, bl);
    BitOrHalves(al, bl);
    BitOrHalves(2 * x + al, 2 * y + bl);
  }

  lemma HalfOfSum(p: nat, x: nat)
    ensures (2 * p + x) / 2 == p + x / 2 && (2 * p + x) % 2 == x % 2
  {
  }

  lemma BitOrOdd(a: nat, b: nat, h: nat)
    requires (a % 2 == 1 || b % 2 == 1) && h == BitOr(a / 2, b / 2)
    ensures BitOr(a, b) % 2 == 1
  {
    BitOrHalves(a, b);
    HalfOfSum(h, 1);
  }

  lemma BitOrHalves(a: nat, b: nat)
    ensures BitOr(a, b) == 2 * BitOr(a / 2, b / 2) + (if a % 2 == 1 || b % 2 == 1 then 1 else 0)
  {
  }

  lemma DivModUnique(x: int, q: int, r: int, d: nat)
    requires d >= 1 && x == q * d + r && 0 <= r < d
    ensures x / d == q && x % d == r
  {
    var k := x / d;
    assert x == k * d + x % d;
    assert (k - q) * d == r - x % d;
    if k > q { ProductAtLeast(k - q, d); }
    if k < q { ProductAtLeast(q - k, d); }
  }

  lemma ProductAtLeast(n: nat, d: nat)
    requires n >= 1
    ensures n * d >= d
  {
    assert n * d == (n - 1) * d + d;
  }

  lemma NextRemainder(k: nat, n: nat)
    requires n > 0
    ensures (k + 1) % n == if k % n == n - 1 then 0 else k % n + 1
  {
    var q, r := k / n, k % n;
    assert k == q * n + r;
    if r == n - 1 {
      assert k + 1 == (q + 1) * n + 0;
      DivModUnique(k + 1, q + 1, 0, n);
    } else {
      DivModUnique(k + 1, q, r + 1, n);
    }
  }

  lemma QuotientIsNat(x: nat, d: nat)
    requires d >= 1
    ensures x / d >= 0
  {
  }
}
