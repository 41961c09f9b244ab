/**
  The free-block bitmap of fs/fs.c: one bit per block in 32-bit words, a set bit meaning free. Words are numbers below
  2^32 and the bitwise operators are defined bit by bit.
 */
module Bitmap {
  import opened Words

  const ALL_ONES: nat := 0xFFFF_FFFF

  function BitAnd(a: nat, b: nat): (r: nat)
    ensures r <= a && r <= b
  {
    if a == 0 || b == 0 then 0
    else 2 * BitAnd(a / 2, b / 2) + (if a % 2 == 1 && b % 2 == 1 then 1 else 0)
  }

  // Complement of a 32-bit word.
  function Not32(a: nat): nat
    requires a <= ALL_ONES
  {
    ALL_ONES - a
  }

  predicate Bit(a: nat, i: nat) {
    if i == 0 then a % 2 == 1 else Bit(a / 2, i - 1)
  }

  lemma {:induction false} ZeroHasNoBit(i: nat)
    ensures !Bit(0, i)
  {
    if i > 0 { ZeroHasNoBit(i - 1); }
  }

  lemma {:induction false} BitOfOr(a: nat, b: nat, i: nat)
    ensures Bit(BitOr(a, b), i) <==> Bit(a, i) || Bit(b, i)
  {
    if a == 0 && b == 0 {
      ZeroHasNoBit(i);
    } else if i > 0 {
      BitOfOr(a / 2, b / 2, i - 1);
    }
  }

  lemma {:induction false} BitOfAnd(a: nat, b: nat, i: nat)
    ensures Bit(BitAnd(a, b), i) <==> Bit(a, i) && Bit(b, i)
  {
    if a == 0 || b == 0 {
      ZeroHasNoBit(i);
    } else if i > 0 {
      BitOfAnd(a / 2, b / 2, i - 1);
    }
  }

  lemma {:induction false} BitOfPow2(i: nat, j: nat)
    ensures Bit(Pow2(i), j) <==> i == j
  {
    if i == 0 {
      if j > 0 { ZeroHasNoBit(j - 1); }
    } else if j > 0 {
      BitOfPow2(i - 1, j - 1);
    }
  }

  // Subtracting from a run of ones flips every bit.
  lemma {:induction false} BitOfComplement(a: nat, n: nat, i: nat)
    requires a < Pow2(n) && i < n
    ensures Bit(Pow2(n) - 1 - a, i) <==> !Bit(a, i)
  {
    if i > 0 {
      assert (Pow2(n) - 1 - a) / 2 == Pow2(n - 1) - 1 - a / 2;
      BitOfComplement(a / 2, n - 1, i - 1);
    }
  }

  lemma {:induction false} AndWithPow2(a: nat, i: nat)
    ensures BitAnd(a, Pow2(i)) != 0 <==> Bit(a, i)
  {
    if a == 0 {
      ZeroHasNoBit(i);
    } else if i > 0 {
      AndWithPow2(a / 2, i - 1);
    } else {
      AndZero(a / 2);
    }
  }

  lemma AndZero(a: nat)
    ensures BitAnd(a, 0) == 0
  {
  }

  // ----- The bitmap -----

  // The test bitmap[b / 32] & (1 << (b % 32)).
  predicate IsFree(words: seq<nat>, b: nat) {
    b / 32 < |words| && BitAnd(words[b / 32], Pow2(b % 32)) != 0
  }

  function SetFree(words: seq<nat>, b: nat): seq<nat>
    requires b / 32 < |words|
  {
    words[b / 32 := BitOr(words[b / 32], Pow2(b % 32))]
  }

  function SetUsed(words: seq<nat>, b: nat): seq<nat>
    requires b / 32 < |words|
  {
    EvenPowers();
    Pow2Monotone(b % 32, 31);
    words[b / 32 := BitAnd(words[b / 32], Not32(Pow2(b % 32)))]
  }

  // Setting or clearing the bit of block b changes the mark of block b and of no other block.
  lemma SetFreeIsExact(words: seq<nat>, b: nat, c: nat)
    requires b / 32 < |words|
    ensures IsFree(SetFree(words, b), c) <==> c == b || IsFree(words, c)
  {
    var w, i, j := words[b / 32], b % 32, c % 32;
    if c / 32 == b / 32 {
      AndWithPow2(BitOr(w, Pow2(i)), j);
      BitOfOr(w, Pow2(i), j);
      BitOfPow2(i, j);
      AndWithPow2(w, j);
    }
  }

  lemma SetUsedIsExact(words: seq<nat>, b: nat, c: nat)
    requires b / 32 < |words|
    ensures IsFree(SetUsed(words, b), c) <==> c != b && IsFree(words, c)
  {
    var w, i, j := words[b / 32], b % 32, c % 32;
    if c / 32 == b / 32 {
      NotPow2Bit(i, j);
      AndWithPow2(BitAnd(w, Not32(Pow2(i))), j);
      BitOfAnd(w, Not32(Pow2(i)), j);
      AndWithPow2(w, j);
    }
  }

  lemma NotPow2Bit(i: nat, j: nat)
    requires i < 32 && j < 32
    ensures Pow2(i) <= ALL_ONES
    ensures Bit(Not32(Pow2(i)), j) <==> i != j
  {
    EvenPowers();
    Pow2Monotone(i, 31);
    BitOfComplement(Pow2(i), 32, j);
    BitOfPow2(i, j);
  }

  // The blocks below n marked free.
  ghost function FreeSet(words: seq<nat>, n: nat): set<nat> {
    set b | 0 <= b < n && IsFree(words, b)
  }

  // The scan of alloc_block: the lowest free block, or n.
  method LowestFree(words: seq<nat>, n: nat) returns (b: nat)
    requires n <= 32 * |words|
    ensures b <= n && (b < n ==> b in FreeSet(words, n)) && forall c :: c in FreeSet(words, n) ==> b <= c
    ensures b == n <==> FreeSet(words, n) == {}
  {
    b := 0;
    while b < n && BitAnd(words[b / 32], Pow2(b % 32)) == 0
      invariant b <= n && forall c :: 0 <= c < b ==> !IsFree(words, c)
    {
      b := b + 1;
    }
  }

  lemma FreeSetChanges(words: seq<nat>, n: nat, b: nat)
    requires b < n <= 32 * |words|
    ensures b / 32 < |words|
    ensures FreeSet(SetFree(words, b), n) == FreeSet(words, n) + {b}
    ensures FreeSet(SetUsed(words, b), n) == FreeSet(words, n) - {b}
  {
    forall c: nat ensures IsFree(SetFree(words, b), c) <==> c == b || IsFree(words, c) { SetFreeIsExact(words, b, c); }
    forall c: nat ensures IsFree(SetUsed(words, b), c) <==> c != b && IsFree(words, c) { SetUsedIsExact(words, b, c); }
  }
}
