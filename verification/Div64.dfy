/**
  64-bit shifts and division from 32-bit parts (lib/div64.c). Words are numbers below 2^32 and 2^64; every operation
  that can wrap is written out.
 */
module Div64 {
  import opened Words

  const WORD: nat := 0x1_0000_0000
  const LONG: nat := 0x1_0000_0000_0000_0000

  function Higher(x: nat): nat { x / WORD }
  function Lower(x: nat): nat { x % WORD }
  function Join(higher: nat, lower: nat): nat { higher * WORD + lower }

  function Shl32(x: nat, s: nat): nat { (x * Pow2(s)) % WORD }
  function Shr32(x: nat, s: nat): nat { QuotientIsNat(x, Pow2(s)); x / Pow2(s) }

  // __ashldi3
  function Ashl(num: nat, shift: nat): nat
    requires shift < 64
  {
    if shift >= 32 then Join(Shl32(Lower(num), shift - 32), 0)
    else if shift == 0 then num
    else
      Join(BitOr(Shl32(Higher(num), shift), Shr32(Lower(num), 32 - shift)), Shl32(Lower(num), shift))
  }

  // __lshrdi3
  function Lshr(num: nat, shift: nat): nat
    requires shift < 64
  {
    if shift >= 32 then Join(0, Shr32(Higher(num), shift - 32))
    else if shift == 0 then num
    else
      Join(Shr32(Higher(num), shift), BitOr(Shr32(Lower(num), shift), Shl32(Higher(num), 32 - shift)))
  }

  lemma WordSize(s: nat, t: nat)
    requires s + t == 32
    ensures Pow2(s) * Pow2(t) == WORD
  {
    EvenPowers();
    Pow2Add(s, t);
  }

  // Multiplying by a within a word of a * b keeps what is below b.
  lemma ShiftWithin(x: nat, a: nat, b: nat, w: nat)
    requires a >= 1 && b >= 1 && a * b == w
    ensures x * a == (x / b) * w + (x % b) * a
    ensures (x * a) % w == (x % b) * a
    ensures (x % b) * a + a <= w
  {
    var p, q := x / b, x % b;
    Regroup(p, q, a, b);
    BelowProduct(q, b, a);
    DivModUnique(x * a, p, q * a, w);
  }

  lemma Regroup(p: nat, q: nat, a: nat, b: nat)
    ensures (p * b + q) * a == p * (a * b) + q * a
  {
  }

  lemma BelowProduct(q: nat, n: nat, a: nat)
    requires q < n && a >= 1
    ensures q * a + a <= n * a
  {
    assert (n - q - 1) * a >= 0;
  }

  lemma QuotientBelow(x: nat, a: nat, b: nat)
    requires x < a * b && b >= 1
    ensures x / b < a
  {
    var k := x / b;
    assert x == k * b + x % b;
    if k >= a { BelowProduct(a, k + 1, b); }
  }

  // The two halves of the product, given those of h * a and l * a.
  lemma JoinProducts(h: nat, l: nat, a: nat, w: nat, p: nat, q: nat, r: nat, s: nat)
    requires h * a == p * w + q && l * a == r * w + s
    ensures (h * w + l) * a == p * (w * w) + (q + r) * w + s
  {
    var x, y := h * a, l * a;
    Distribute3(h, w, l, a);
    assert x * w == p * (w * w) + q * w by { Regroup(p, q, w, w); }
    Times(q, r, w);
  }

  lemma Distribute3(h: nat, w: nat, l: nat, a: nat)
    ensures (h * w + l) * a == (h * a) * w + l * a
  {
  }

  lemma Times(q: nat, r: nat, w: nat)
    ensures (q + r) * w == q * w + r * w
  {
  }

  // A left shift by fewer than 32 bits, in terms of the powers a = 2^s and b = 2^(32 - s).
  lemma LeftByParts(h: nat, l: nat, a: nat, b: nat, w: nat)
    requires a >= 1 && b >= 1 && a * b == w && l < w
    ensures var hi := (h % b) * a + l / b;
            hi < w && (l % b) * a < w && l / b < a
            && (h * w + l) * a == (h / b) * (w * w) + hi * w + (l % b) * a
  {
    QuotientIsNat(h, b);
    QuotientIsNat(l, b);
    ShiftWithin(h, a, b, w);
    ShiftWithin(l, a, b, w);
    QuotientBelow(l, a, b);
    var p, q, r, s := h / b, (h % b) * a, l / b, (l % b) * a;
    JoinProducts(h, l, a, w, p, q, r, s);
  }

  lemma TwoDigits(x: nat, p: nat, hi: nat, lo: nat, w: nat)
    requires hi < w && lo < w && x == p * (w * w) + hi * w + lo
    ensures x % (w * w) == hi * w + lo
  {
    BelowProduct(hi, w, w);
    DivModUnique(x, p, hi * w + lo, w * w);
  }

  lemma LeftShiftValue(h: nat, l: nat, a: nat, b: nat, w: nat)
    requires a >= 1 && b >= 1 && a * b == w && l < w
    ensures ((h * w + l) * a) % (w * w) == ((h % b) * a + l / b) * w + (l % b) * a
  {
    QuotientIsNat(h, b);
    QuotientIsNat(l, b);
    var x, p, hi, lo := (h * w + l) * a, h / b, (h % b) * a + l / b, (l % b) * a;
    LeftByParts(h, l, a, b, w);
    TwoDigits(x, p, hi, lo, w);
  }

  lemma Shl32Value(x: nat, shift: nat)
    requires shift <= 32
    ensures Shl32(x, shift) == (x % Pow2(32 - shift)) * Pow2(shift)
  {
    var a, b := Pow2(shift), Pow2(32 - shift);
    WordSize(shift, 32 - shift);
    ShiftWithin(x, a, b, WORD);
  }

  lemma SmallLeftShift(h: nat, l: nat, shift: nat)
    requires l < WORD && 0 < shift < 32
    ensures BitOr(Shl32(h, shift), Shr32(l, 32 - shift)) == (h % Pow2(32 - shift)) * Pow2(shift) + l / Pow2(32 - shift)
    ensures Shl32(l, shift) == (l % Pow2(32 - shift)) * Pow2(shift)
  {
    Shl32Value(h, shift);
    Shl32Value(l, shift);
    WordSize(shift, 32 - shift);
    var a, b := Pow2(shift), Pow2(32 - shift);
    QuotientBelow(l, a, b);
    QuotientIsNat(l, b);
    var x, y := h % b, l / b;
    BitOrDisjoint(x, y, shift);
  }

  lemma LargeLeftShift(h: nat, l: nat, a: nat, w: nat)
    requires w >= 1
    ensures ((h * w + l) * (w * a)) % (w * w) == ((l * a) % w) * w
  {
    var y := l * a;
    var q, r := y / w, y % w;
    assert y == q * w + r;
    ExpandLarge(h, l, a, w);
    assert y * w == q * (w * w) + r * w by { Regroup(q, r, w, w); }
    assert (h * a + q) * (w * w) == (h * a) * (w * w) + q * (w * w);
    TwoDigits((h * w + l) * (w * a), h * a + q, r, 0, w);
  }

  lemma ExpandLarge(h: nat, l: nat, a: nat, w: nat)
    ensures (h * w + l) * (w * a) == (h * a) * (w * w) + (l * a) * w
  {
    assert (h * w + l) * (w * a) == (h * w) * (w * a) + l * (w * a);
    assert (h * w) * (w * a) == (h * a) * (w * w);
  }

  lemma AshlSmall(h: nat, l: nat, shift: nat)
    requires l < WORD && 0 < shift < 32
    ensures Join(BitOr(Shl32(h, shift), Shr32(l, 32 - shift)), Shl32(l, shift)) == ((h * WORD + l) * Pow2(shift)) % LONG
  {
    WordSize(shift, 32 - shift);
    LeftShiftValue(h, l, Pow2(shift), Pow2(32 - shift), WORD);
    SmallLeftShift(h, l, shift);
  }

  lemma AshlLarge(h: nat, l: nat, shift: nat)
    requires 32 <= shift < 64
    ensures Join(Shl32(l, shift - 32), 0) == ((h * WORD + l) * Pow2(shift)) % LONG
  {
    LargeLeftShift(h, l, Pow2(shift - 32), WORD);
    PowFrom32(shift);
  }

  // __ashldi3 shifts left modulo 2^64.
  lemma AshlIsShift(num: nat, shift: nat)
    requires num < LONG && shift < 64
    ensures Ashl(num, shift) == (num * Pow2(shift)) % LONG
  {
    var h, l := Higher(num), Lower(num);
    assert h * WORD + l == num;
    if shift >= 32 {
      AshlLarge(h, l, shift);
    } else if shift > 0 {
      AshlSmall(h, l, shift);
    }
  }

  lemma PowFrom32(shift: nat)
    requires shift >= 32
    ensures Pow2(shift) == WORD * Pow2(shift - 32)
  {
    WordSize(32, 0);
    Pow2Add(32, shift - 32);
  }

  lemma RightByParts(h: nat, l: nat, a: nat, b: nat, w: nat)
    requires a >= 1 && b >= 1 && a * b == w && l < w
    ensures (h * w + l) / a == (h / a) * w + ((h % a) * b + l / a)
  {
    var p, q, r, s := h / a, h % a, l / a, l % a;
    assert h == p * a + q && l == r * a + s;
    assert (p * a + q) * w == (p * w) * a + (q * b) * a;
    assert (p * w + (q * b + r)) * a == (p * w) * a + (q * b) * a + r * a;
    DivModUnique(h * w + l, p * w + (q * b + r), s, a);
  }

  lemma SmallRightShift(h: nat, l: nat, shift: nat)
    requires l < WORD && 0 < shift < 32
    ensures BitOr(Shr32(l, shift), Shl32(h, 32 - shift)) == (h % Pow2(shift)) * Pow2(32 - shift) + l / Pow2(shift)
  {
    Shl32Value(h, 32 - shift);
    WordSize(32 - shift, shift);
    var a, b := Pow2(shift), Pow2(32 - shift);
    QuotientBelow(l, b, a);
    QuotientIsNat(l, a);
    var x, y := h % a, l / a;
    BitOrDisjoint(x, y, 32 - shift);
    var xb := x * b;
    BitOrCommutes(y, xb);
  }

  lemma LargeRightShift(h: nat, l: nat, a: nat, w: nat)
    requires a >= 1 && w >= 1 && l < w
    ensures (h * w + l) / (w * a) == h / a
  {
    var p, q := h / a, h % a;
    assert h == p * a + q;
    assert h * w + l == p * (w * a) + (q * w + l);
    BelowProduct(q, a, w);
    DivModUnique(h * w + l, p, q * w + l, w * a);
  }

  lemma LshrSmall(h: nat, l: nat, shift: nat)
    requires l < WORD && 0 < shift < 32
    ensures Join(Shr32(h, shift), BitOr(Shr32(l, shift), Shl32(h, 32 - shift))) == (h * WORD + l) / Pow2(shift)
  {
    WordSize(shift, 32 - shift);
    RightByParts(h, l, Pow2(shift), Pow2(32 - shift), WORD);
    SmallRightShift(h, l, shift);
  }

  lemma LshrLarge(h: nat, l: nat, shift: nat)
    requires l < WORD && 32 <= shift < 64
    ensures Join(0, Shr32(h, shift - 32)) == (h * WORD + l) / Pow2(shift)
  {
    LargeRightShift(h, l, Pow2(shift - 32), WORD);
    PowFrom32(shift);
  }

  // __lshrdi3 shifts right.
  lemma LshrIsShift(num: nat, shift: nat)
    requires num < LONG && shift < 64
    ensures Lshr(num, shift) == num / Pow2(shift)
  {
    var h, l := Higher(num), Lower(num);
    assert h * WORD + l == num;
    if shift >= 32 {
      LshrLarge(h, l, shift);
    } else if shift > 0 {
      LshrSmall(h, l, shift);
    }
  }

  // ----- The division -----

  // A zero divider raises the processor's divide exception.
  datatype Division = DivideError | Quotient(result: nat, remainder: nat)

  // The inner loop of _64bit_divide: doubles the divider as long as it stays within half the dividend.
  method Align(divider: nat, dividend: nat, ghost top: nat) returns (locald: nat, shifts: nat)
    requires 1 <= divider <= dividend < LONG && dividend < divider * Pow2(top) && top <= 64
    ensures shifts < top && locald == divider * Pow2(shifts) && locald <= dividend < 2 * locald
  {
    var limit := Half(dividend);
    locald, shifts := divider, 0;
    while locald <= limit
      invariant locald == divider * Pow2(shifts) && divider <= locald <= dividend
      decreases dividend - locald
    {
      ShiftOnce(divider, shifts);
      shifts := shifts + 1;
      locald := locald + locald;
    }
    ShiftBounded(divider, dividend, shifts, top);
  }

  lemma ShiftOnce(divider: nat, shifts: nat)
    ensures divider * Pow2(shifts + 1) == divider * Pow2(shifts) + divider * Pow2(shifts)
  {
    DoubledProduct(Pow2(shifts), divider);
  }

  lemma ShiftBounded(divider: nat, dividend: nat, shifts: nat, top: nat)
    requires divider * Pow2(shifts) <= dividend < divider * Pow2(top)
    ensures shifts < top
  {
    if shifts >= top {
      Pow2Monotone(top, shifts);
      MulMonotone(divider, Pow2(top), Pow2(shifts));
    }
  }

  method Half(x: nat) returns (y: nat)
    requires x < LONG
    ensures y == x / 2
  {
    y := Lshr(x, 1);
    LshrIsShift(x, 1);
    assert Pow2(1) == 2;
  }

  method ShiftOne(shifts: nat) returns (bit: nat)
    requires shifts < 64
    ensures bit == Pow2(shifts)
  {
    bit := Ashl(1, shifts);
    AshlIsShift(1, shifts);
    LongSize();
    Pow2Monotone(shifts, 64);
    OneTimes(Pow2(shifts));
  }

  lemma OneTimes(p: nat)
    requires p < LONG
    ensures (1 * p) % LONG == p
  {
  }

  lemma LongSize()
    ensures Pow2(64) == LONG
  {
    PowFrom32(64);
    PowFrom32(32);
    assert Pow2(0) == 1;
  }

  lemma MulMonotone(d: nat, a: nat, b: nat)
    requires a <= b
    ensures d * a <= d * b
  {
    assert d * (b - a) >= 0;
  }

  // Setting a new bit below all the old ones adds it.
  lemma OrAddsBit(q: nat, shifts: nat, top: nat) returns (q': nat)
    requires shifts < top
    ensures BitOr(q * Pow2(top), Pow2(shifts)) == q * Pow2(top) + Pow2(shifts) == q' * Pow2(shifts)
  {
    Pow2Monotone(shifts, top);
    BitOrDisjoint(q, Pow2(shifts), top);
    q' := q * Pow2(top - shifts) + 1;
    Pow2Add(top - shifts, shifts);
    AddUnit(q, Pow2(top - shifts), Pow2(shifts));
  }

  lemma AddUnit(q: nat, a: nat, b: nat)
    ensures (q * a + 1) * b == q * (a * b) + b
  {
  }

  // result dividers have been taken from the dividend, rest is left, and all bits of result lie at or above top, where
  // the next bit lies below.
  ghost predicate Progress(dividend: nat, divider: nat, result: nat, rest: nat, top: nat, q: nat) {
    && rest <= dividend && result * divider + rest == dividend
    && top <= 64 && result == q * Pow2(top) && rest < divider * Pow2(top)
  }

  method Round(dividend: nat, divider: nat, result: nat, rest: nat, ghost top: nat, ghost q: nat)
    returns (result': nat, rest': nat, ghost top': nat, ghost q': nat)
    requires 1 <= divider <= rest && dividend < LONG && Progress(dividend, divider, result, rest, top, q)
    ensures rest' < rest && top' < top && Progress(dividend, divider, result', rest', top', q')
  {
    var locald, shifts := Align(divider, rest, top);
    var bit := ShiftOne(shifts);
    q' := OrAddsBit(q, shifts, top);
    Subtracted(result, bit, divider, rest, locald);
    result' := BitOr(result, bit);
    rest' := rest - locald;
    top' := shifts;
  }

  // The long division of _64bit_divide: repeated subtraction of shifted dividers, one result bit each.
  method Subtract(dividend: nat, divider: nat) returns (result: nat, rest: nat)
    requires 1 <= divider < LONG && dividend < LONG
    ensures result == dividend / divider && rest == dividend % divider
  {
    result, rest := 0, dividend;
    ghost var top, q := 64, 0;
    FitsAtTop(dividend, divider);
    while divider <= rest
      invariant Progress(dividend, divider, result, rest, top, q)
      decreases rest
    {
      result, rest, top, q := Round(dividend, divider, result, rest, top, q);
    }
    DivModUnique(dividend, result, rest, divider);
  }

  lemma FitsAtTop(dividend: nat, divider: nat)
    requires divider >= 1 && dividend < LONG
    ensures dividend < divider * Pow2(64)
  {
    LongSize();
    ProductAtLeast(divider, Pow2(64));
  }

  lemma Subtracted(result: nat, bit: nat, divider: nat, rest: nat, locald: nat)
    requires locald == divider * bit && locald <= rest
    ensures (result + bit) * divider + (rest - locald) == result * divider + rest
  {
  }

  // _64bit_divide: the quotient is always exact; the stored remainder is wrong exactly when a dividend below 2^32 is
  // divided by a divider of at least 2^32, where the code stores the divider.
  method Divide(dividend: nat, divider: nat) returns (d: Division)
    requires dividend < LONG && divider < LONG
    ensures d.DivideError? <==> divider == 0
    ensures divider != 0 ==> d.result == dividend / divider
    ensures divider != 0 ==> (d.remainder == dividend % divider <==> !(dividend < WORD <= divider))
    ensures dividend < WORD <= divider ==> d.remainder == divider
  {
    if divider == 0 { return DivideError; }
    if dividend <= WORD - 1 {
      if divider > WORD - 1 {
        DivModUnique(dividend, 0, dividend, divider);
        return Quotient(0, divider);
      }
      return Quotient(dividend / divider, dividend % divider);
    }
    var result, rest := Subtract(dividend, divider);
    d := Quotient(result, rest);
  }
}
