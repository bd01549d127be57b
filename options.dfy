/**
 * The run options that the counting core consults, and their validation: the pair
 * switches add SAM flag bits to the required flags, and contradictory flags or a
 * window size below one are errors. Flags are C ints, held as their 32-bit pattern.
 */
module BamOptions {
  import opened Wrappers
  import opened Decimal
  import opened Entries
  import opened Flags

  /** SAM flag bits, section 1.4 of the SAM format specification. */
  const FlagPaired: uint32 := 0x1
  const FlagProperPair: uint32 := 0x2
  const FlagSecondary: uint32 := 0x100
  const FlagSupplementary: uint32 := 0x800

  const DefaultWindowSize: int := 1000
  const DefaultMinMapq: int := 0
  const DefaultRequiredFlags: uint32 := 0
  /** Secondary | supplementary. */
  const DefaultForbiddenFlags: uint32 := 0x900

  /** The default forbidden flags are the secondary and the supplementary bits, and no other. */
  lemma DefaultForbiddenBits(i: nat)
    ensures DefaultForbiddenFlags == Or(FlagSecondary, FlagSupplementary)
    ensures Bit(DefaultForbiddenFlags, i) <==> i == 8 || i == 11
  {
    assert Pow2(8) == FlagSecondary && Pow2(11) == FlagSupplementary;
    OrBit(FlagSecondary, FlagSupplementary, i);
    Pow2Bit(8, i);
    Pow2Bit(11, i);
  }

  /** The value of a C int from its 32-bit two's complement pattern. */
  function SignedValue(x: uint32): (r: int)
    ensures -0x8000_0000 <= r < 0x8000_0000
    ensures (r + U32) % U32 == x
  {
    if x < 0x8000_0000 then x else x - U32
  }

  /** x | y on 32-bit words. */
  function Or32(x: uint32, y: uint32): (r: uint32)
    ensures r == Or(x, y)
  {
    OrFits32(x, y);
    Or(x, y)
  }

  /** The required flags after the pair switches: pairs only adds the paired bit, proper pairs only adds both pair bits. */
  function WithPairFlags(required: uint32, pairsOnly: bool, properPairsOnly: bool): uint32 {
    var middle := if pairsOnly then Or32(required, FlagPaired) else required;
    if properPairsOnly then Or32(middle, Or32(FlagProperPair, FlagPaired)) else middle
  }

  lemma OneBits(i: nat)
    ensures Bit(1, i) <==> i == 0
  {
    Pow2Bit(0, i);
  }

  lemma ThreeBits(i: nat)
    ensures Or(FlagProperPair, FlagPaired) == 3
    ensures Bit(3, i) <==> i < 2
  {
    if i > 1 {
      ZeroHasNoBits(i - 2);
    }
  }

  /** Bit by bit, the pair switches set bit 0 (paired) or bits 0 and 1 (proper pair) and leave every other bit as it was. */
  lemma PairFlagBits(required: uint32, pairsOnly: bool, properPairsOnly: bool, i: nat)
    ensures Bit(WithPairFlags(required, pairsOnly, properPairsOnly), i)
            <==> Bit(required, i) || (i == 0 && (pairsOnly || properPairsOnly)) || (i == 1 && properPairsOnly)
  {
    var middle := if pairsOnly then Or(required, FlagPaired) else required;
    OneBits(i);
    ThreeBits(i);
    OrBit(required, FlagPaired, i);
    OrBit(middle, 3, i);
  }

  /** The pair switches only add bits. */
  lemma PairFlagsKeep(required: uint32, pairsOnly: bool, properPairsOnly: bool)
    ensures SubFlags(required, WithPairFlags(required, pairsOnly, properPairsOnly))
  {
    forall i: nat | Bit(required, i) ensures Bit(WithPairFlags(required, pairsOnly, properPairsOnly), i) {
      PairFlagBits(required, pairsOnly, properPairsOnly, i);
    }
    SubFlagsBits(required, WithPairFlags(required, pairsOnly, properPairsOnly));
  }

  /** Applying the pair switches a second time changes nothing. */
  lemma PairFlagsIdempotent(required: uint32, pairsOnly: bool, properPairsOnly: bool)
    ensures var once := WithPairFlags(required, pairsOnly, properPairsOnly);
            WithPairFlags(once, pairsOnly, properPairsOnly) == once
  {
    var once := WithPairFlags(required, pairsOnly, properPairsOnly);
    forall i: nat ensures Bit(WithPairFlags(once, pairsOnly, properPairsOnly), i) <==> Bit(once, i) {
      PairFlagBits(once, pairsOnly, properPairsOnly, i);
      PairFlagBits(required, pairsOnly, properPairsOnly, i);
    }
    SameBits(WithPairFlags(once, pairsOnly, properPairsOnly), once);
  }

  function DisjointError(required: uint32, forbidden: uint32): string {
    "Required flags (" + IntToString(SignedValue(required)) + ") and forbidden flags ("
      + IntToString(SignedValue(forbidden)) + ") must be disjoint."
  }

  function WindowError(windowSize: int): string {
    "Invalid window size (" + IntToString(windowSize) + "), must be >= 1."
  }

  /**
   * The outcome of validation: the required flags after the pair switches, or the
   * first error, the flag clash being checked before the window size.
   */
  function Validated(required: uint32, forbidden: uint32, windowSize: int, pairsOnly: bool, properPairsOnly: bool): (r: Result<uint32, string>)
    ensures var req := WithPairFlags(required, pairsOnly, properPairsOnly);
            && (r.Success? <==> And(req, forbidden) == 0 && windowSize >= 1)
            && (r.Success? ==> r.value == req)
            && (r.Failure? && And(req, forbidden) != 0 ==> r.error == DisjointError(req, forbidden))
            && (r.Failure? && And(req, forbidden) == 0 ==> r.error == WindowError(windowSize))
  {
    var req := WithPairFlags(required, pairsOnly, properPairsOnly);
    if And(req, forbidden) != 0 then Failure(DisjointError(req, forbidden))
    else if windowSize < 1 then Failure(WindowError(windowSize))
    else Success(req)
  }

  /** Validation accepts exactly when the window is positive and no bit is both required (after the switches) and forbidden. */
  lemma ValidatedBits(required: uint32, forbidden: uint32, windowSize: int, pairsOnly: bool, properPairsOnly: bool)
    ensures Validated(required, forbidden, windowSize, pairsOnly, properPairsOnly).Success?
            <==> windowSize >= 1
                 && (forall i: nat :: !(Bit(required, i) && Bit(forbidden, i)))
                 && !((pairsOnly || properPairsOnly) && Bit(forbidden, 0))
                 && !(properPairsOnly && Bit(forbidden, 1))
  {
    var req := WithPairFlags(required, pairsOnly, properPairsOnly);
    DisjointBits(req, forbidden);
    forall i: nat {
      PairFlagBits(required, pairsOnly, properPairsOnly, i);
    }
  }

  /** The defaults pass validation and leave the required flags empty. */
  lemma DefaultsValid()
    ensures Validated(DefaultRequiredFlags, DefaultForbiddenFlags, DefaultWindowSize, false, false) == Success(0)
  {
  }

  /** Asking for pairs while forbidding paired reads is an error, whatever else is set. */
  lemma PairsAgainstForbidden(required: uint32, forbidden: uint32, windowSize: int, properPairsOnly: bool)
    requires Bit(forbidden, 0)
    ensures Validated(required, forbidden, windowSize, true, properPairsOnly).Failure?
  {
    ValidatedBits(required, forbidden, windowSize, true, properPairsOnly);
  }

  /** The options of a run that the counting core reads. */
  class Options {
    var minMapq: int
    var windowSize: int
    var requiredFlags: uint32
    var forbiddenFlags: uint32
    var pairsOnly: bool
    var properPairsOnly: bool
    var leftmost: bool
    var perLib: bool
    var perReadLen: bool

    /** The defaults of the command line. */
    constructor ()
      ensures minMapq == DefaultMinMapq && windowSize == DefaultWindowSize
      ensures requiredFlags == DefaultRequiredFlags && forbiddenFlags == DefaultForbiddenFlags
      ensures !pairsOnly && !properPairsOnly && !leftmost && !perLib && !perReadLen
    {
      minMapq := DefaultMinMapq;
      windowSize := DefaultWindowSize;
      requiredFlags := DefaultRequiredFlags;
      forbiddenFlags := DefaultForbiddenFlags;
      pairsOnly := false;
      properPairsOnly := false;
      leftmost := false;
      perLib := false;
      perReadLen := false;
    }

    /** Adds the pair switches' flags to the required flags, then rejects clashing flags and small windows. */
    method Validate() returns (r: Result<(), string>)
      modifies this`requiredFlags
      ensures requiredFlags == WithPairFlags(old(requiredFlags), pairsOnly, properPairsOnly)
      ensures var v := Validated(old(requiredFlags), forbiddenFlags, windowSize, pairsOnly, properPairsOnly);
              (r.Success? <==> v.Success?) && (r.Failure? ==> r.error == v.error)
    {
      if pairsOnly {
        requiredFlags := Or32(requiredFlags, FlagPaired);
      }
      if properPairsOnly {
        requiredFlags := Or32(requiredFlags, Or32(FlagProperPair, FlagPaired));
      }
      if And(requiredFlags, forbiddenFlags) != 0 {
        return Failure(DisjointError(requiredFlags, forbiddenFlags));
      }
      if windowSize < 1 {
        return Failure(WindowError(windowSize));
      }
      r := Success(());
    }
  }
}
