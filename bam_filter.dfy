/**
 * BamFilter: the test every read passes before it is counted. A read is wanted when
 * its mapping quality reaches the minimum, it carries every required flag and none
 * of the forbidden ones.
 */
module BamFiltering {
  import opened Entries
  import opened Flags
  import opened BamOptions

  /** The filter's test on a read's mapping quality and flag word. */
  predicate Accepts(minMapq: int, required: nat, forbidden: nat, mapq: int, flag: nat) {
    mapq >= minMapq && And(flag, required) == required && And(flag, forbidden) == 0
  }

  /** Bit by bit: every required bit set, no forbidden bit set, and the quality high enough. */
  lemma AcceptsBits(minMapq: int, required: nat, forbidden: nat, mapq: int, flag: nat)
    ensures Accepts(minMapq, required, forbidden, mapq, flag)
            <==> mapq >= minMapq
                 && (forall i: nat :: Bit(required, i) ==> Bit(flag, i))
                 && (forall i: nat :: !(Bit(flag, i) && Bit(forbidden, i)))
  {
    SubFlagsBits(required, flag);
    DisjointBits(flag, forbidden);
  }

  /** With a flag both required and forbidden, no read is wanted. */
  lemma ClashingFlagsRejectAll(minMapq: int, required: nat, forbidden: nat, mapq: int, flag: nat)
    requires And(required, forbidden) != 0
    ensures !Accepts(minMapq, required, forbidden, mapq, flag)
  {
    AcceptsBits(minMapq, required, forbidden, mapq, flag);
    DisjointBits(required, forbidden);
  }

  /** A stricter filter wants fewer reads: a higher minimum, more required bits, more forbidden bits. */
  lemma StricterAcceptsLess(minMapq: int, required: nat, forbidden: nat, minMapq': int, required': nat, forbidden': nat, mapq: int, flag: nat)
    requires minMapq <= minMapq' && SubFlags(required, required') && SubFlags(forbidden, forbidden')
    requires Accepts(minMapq', required', forbidden', mapq, flag)
    ensures Accepts(minMapq, required, forbidden, mapq, flag)
  {
    SubFlagsBits(required, required');
    SubFlagsBits(forbidden, forbidden');
    AcceptsBits(minMapq, required, forbidden, mapq, flag);
    AcceptsBits(minMapq', required', forbidden', mapq, flag);
  }

  /** Without flag constraints only the mapping quality decides. */
  lemma NoFlagsOnlyQuality(minMapq: int, mapq: int, flag: nat)
    ensures Accepts(minMapq, 0, 0, mapq, flag) <==> mapq >= minMapq
  {
    AcceptsBits(minMapq, 0, 0, mapq, flag);
    forall i: nat {
      ZeroHasNoBits(i);
    }
  }

  /** With the default options a read is wanted exactly when it is neither secondary nor supplementary. */
  lemma DefaultFilter(mapq: int, flag: nat)
    requires mapq >= 0
    ensures Accepts(DefaultMinMapq, DefaultRequiredFlags, DefaultForbiddenFlags, mapq, flag)
            <==> !Bit(flag, 8) && !Bit(flag, 11)
  {
    AcceptsBits(DefaultMinMapq, DefaultRequiredFlags, DefaultForbiddenFlags, mapq, flag);
    DefaultForbiddenBits(8);
    DefaultForbiddenBits(11);
    forall i: nat ensures !Bit(DefaultRequiredFlags, i) && (Bit(DefaultForbiddenFlags, i) <==> i == 8 || i == 11) {
      DefaultForbiddenBits(i);
      ZeroHasNoBits(i);
    }
  }

  /** The filter holds the options of the run. */
  class BamFilter {
    const opts: Options

    constructor (opts: Options)
      ensures this.opts == opts
    {
      this.opts := opts;
    }

    /** Whether a read is counted, under the options as they are now. */
    predicate WantEntry(e: Entry)
      reads this, opts
    {
      Accepts(opts.minMapq, opts.requiredFlags, opts.forbiddenFlags, e.mappingQuality, e.samFlag)
    }

    /**
     * Once the options have validated, the filter can want a read: the flag word made
     * of exactly the required bits passes.
     */
    lemma ValidatedWantsSome(e: Entry)
      requires And(opts.requiredFlags, opts.forbiddenFlags) == 0
      requires e.mappingQuality >= opts.minMapq && e.samFlag == opts.requiredFlags
      ensures WantEntry(e)
    {
      AndSelf(opts.requiredFlags);
    }
  }
}
