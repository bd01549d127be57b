/**
 * SAM flags as the bit patterns the C operators & and | work on. A flag word is a
 * non-negative integer; bit i is its i-th binary digit. The 32-bit values of the
 * source stay below 2^32.
 */
module Flags {
  import opened Entries

  /** Bit i of a. */
  predicate Bit(a: nat, i: nat) {
    if i == 0 then a % 2 == 1 else Bit(a / 2, i - 1)
  }

  /** Bitwise and. */
  function And(a: nat, b: nat): (r: nat)
    ensures r <= a && r <= b
  {
    if a == 0 || b == 0 then 0
    else 2 * And(a / 2, b / 2) + if a % 2 == 1 && b % 2 == 1 then 1 else 0
  }

  /** Bitwise or. */
  function Or(a: nat, b: nat): (r: nat)
    ensures r >= a && r >= b
    decreases a + b
  {
    if a == 0 then b
    else if b == 0 then a
    else 2 * Or(a / 2, b / 2) + if a % 2 == 1 || b % 2 == 1 then 1 else 0
  }

  /** Every bit set in a is set in b, written as C tests it: (b & a) == a. */
  predicate SubFlags(a: nat, b: nat) {
    And(b, a) == a
  }

  /** The lowest bit and the remaining bits of 2 * x + low. */
  lemma Halves(x: nat, low: nat)
    requires low < 2
    ensures (2 * x + low) / 2 == x && (2 * x + low) % 2 == low
  {
  }

  lemma AndStep(a: nat, b: nat)
    requires a != 0 && b != 0
    ensures And(a, b) / 2 == And(a / 2, b / 2)
    ensures And(a, b) % 2 == 1 <==> a % 2 == 1 && b % 2 == 1
  {
    Halves(And(a / 2, b / 2), if a % 2 == 1 && b % 2 == 1 then 1 else 0);
  }

  lemma OrStep(a: nat, b: nat)
    requires a != 0 && b != 0
    ensures Or(a, b) / 2 == Or(a / 2, b / 2)
    ensures Or(a, b) % 2 == 1 <==> a % 2 == 1 || b % 2 == 1
  {
    Halves(Or(a / 2, b / 2), if a % 2 == 1 || b % 2 == 1 then 1 else 0);
  }

  lemma {:induction false} AndBit(a: nat, b: nat, i: nat)
    ensures Bit(And(a, b), i) <==> Bit(a, i) && Bit(b, i)
    decreases i
  {
    if a == 0 || b == 0 {
      ZeroHasNoBits(i);
    } else {
      AndStep(a, b);
      if i > 0 {
        AndBit(a / 2, b / 2, i - 1);
      }
    }
  }

  lemma {:induction false} OrBit(a: nat, b: nat, i: nat)
    ensures Bit(Or(a, b), i) <==> Bit(a, i) || Bit(b, i)
    decreases i
  {
    if a == 0 || b == 0 {
      ZeroHasNoBits(i);
    } else {
      OrStep(a, b);
      if i > 0 {
        OrBit(a / 2, b / 2, i - 1);
      }
    }
  }

  /** a & a == a. */
  lemma {:induction false} AndSelf(a: nat)
    ensures And(a, a) == a
  {
    if a != 0 {
      AndSelf(a / 2);
    }
  }

  lemma {:induction false} ZeroHasNoBits(i: nat)
    ensures !Bit(0, i)
  {
    if i > 0 {
      ZeroHasNoBits(i - 1);
    }
  }

  /** A non-zero word has a set bit. */
  lemma {:induction false} NonZeroHasBit(a: nat) returns (i: nat)
    requires a != 0
    ensures Bit(a, i)
  {
    if a % 2 == 1 {
      i := 0;
    } else {
      var j := NonZeroHasBit(a / 2);
      i := j + 1;
    }
  }

  /** Words with the same bits are equal. */
  lemma {:induction false} SameBits(a: nat, b: nat)
    requires forall i: nat :: Bit(a, i) <==> Bit(b, i)
    ensures a == b
    decreases a + b
  {
    assert Bit(a, 0) <==> Bit(b, 0);
    if a != 0 || b != 0 {
      forall i: nat ensures Bit(a / 2, i) <==> Bit(b / 2, i) {
        assert Bit(a, i + 1) <==> Bit(b, i + 1);
      }
      if a / 2 + b / 2 < a + b {
        SameBits(a / 2, b / 2);
      }
    }
  }

  /** a & b == a exactly when every bit of a is a bit of b. */
  lemma SubFlagsBits(a: nat, b: nat)
    ensures SubFlags(a, b) <==> forall i: nat :: Bit(a, i) ==> Bit(b, i)
  {
    if forall i: nat :: Bit(a, i) ==> Bit(b, i) {
      forall i: nat ensures Bit(And(b, a), i) <==> Bit(a, i) {
        AndBit(b, a, i);
      }
      SameBits(And(b, a), a);
    } else {
      var i: nat :| Bit(a, i) && !Bit(b, i);
      AndBit(b, a, i);
    }
  }

  /** a & b == 0 exactly when a and b share no bit. */
  lemma DisjointBits(a: nat, b: nat)
    ensures And(a, b) == 0 <==> forall i: nat :: !(Bit(a, i) && Bit(b, i))
  {
    if And(a, b) == 0 {
      forall i: nat ensures !(Bit(a, i) && Bit(b, i)) {
        AndBit(a, b, i);
        ZeroHasNoBits(i);
      }
    } else {
      var i := NonZeroHasBit(And(a, b));
      AndBit(a, b, i);
    }
  }

  /** Or-ing in bits keeps every bit already set. */
  lemma OrKeeps(a: nat, b: nat)
    ensures SubFlags(a, Or(a, b)) && SubFlags(b, Or(a, b))
  {
    forall i: nat | Bit(a, i) || Bit(b, i) ensures Bit(Or(a, b), i) {
      OrBit(a, b, i);
    }
    SubFlagsBits(a, Or(a, b));
    SubFlagsBits(b, Or(a, b));
  }

  /** Powers of two: the first word with bit n set. */
  function Pow2(n: nat): (r: nat)
    ensures r >= 1
  {
    if n == 0 then 1 else 2 * Pow2(n - 1)
  }

  /** The only bit of 2^n is bit n. */
  lemma {:induction false} Pow2Bit(n: nat, i: nat)
    ensures Bit(Pow2(n), i) <==> i == n
    decreases n
  {
    if n == 0 {
      if i > 0 {
        ZeroHasNoBits(i - 1);
      }
    } else if i > 0 {
      Halves(Pow2(n - 1), 0);
      Pow2Bit(n - 1, i - 1);
    }
  }

  /** Or of two n-bit words is an n-bit word. */
  lemma {:induction false} OrBelow(a: nat, b: nat, n: nat)
    requires a < Pow2(n) && b < Pow2(n)
    ensures Or(a, b) < Pow2(n)
    decreases n
  {
    if a != 0 && b != 0 {
      if n == 0 {
        assert false;
      }
      OrBelow(a / 2, b / 2, n - 1);
    }
  }

  /** The or of two 32-bit words is a 32-bit word. */
  lemma OrFits32(a: uint32, b: uint32)
    ensures Or(a, b) < U32
  {
    assert Pow2(32) == U32 by {
      assert Pow2(8) == 256;
      assert Pow2(16) == 65536;
      assert Pow2(24) == 16777216;
    }
    OrBelow(a, b, 32);
  }
}
