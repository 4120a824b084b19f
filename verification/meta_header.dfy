/**
 * The metadata header: the flag enumeration, the three flag macros on the
 * flags word every metadata instance starts with, and the descriptor record
 * a registration produces.
 */
module MetaHeader {

  import opened Wrappers
  import opened FlagBits
  import opened Quarks

  /** A `GstMetaFlags` word, a C enum used as a 32-bit set of flag bits. */
  type Flags = Word

  const FlagNone: Flags := 0
  const FlagReadonly: Flags := 1 << 0
  const FlagPooled: Flags := 1 << 1
  /** First flag bit left to extensions; core flags all lie below it. */
  const FlagLast: Flags := 1 << 16

  /** A `gsize`: an unsigned 64-bit byte count. */
  type Size = x: nat | x < 0x1_0000_0000_0000_0000

  /**
   * The implementor type handed out by the type system for an implementation
   * name. The model treats it as an opaque handle.
   */
  type GType = nat

  /**
   * The address of a hook function. The hooks' bodies live in the metadata
   * implementations, so a hook is known only by identity; NULL is `None`.
   */
  type FuncPtr = nat

  /**
   * A `GstMetaInfo` descriptor. `addr` is the address the descriptor was
   * allocated at, which is its identity: two registrations with equal
   * arguments still produce two descriptors.
   */
  datatype Info = Info(
    addr: nat,
    api: Quark,
    gtype: GType,
    size: Size,
    initFunc: Option<FuncPtr>,
    freeFunc: Option<FuncPtr>,
    copyFunc: Option<FuncPtr>,
    transformFunc: Option<FuncPtr>)

  /*
   * The three flag macros act on `GST_META_FLAGS(meta)`, the `flags` field
   * of a `GstMeta` header, and on nothing else of the instance; they are
   * modelled on that word.
   */

  /**
   * `GST_META_FLAG_IS_SET`: 1 when the word has any bit of `flag` switched
   * on, otherwise 0; the double negation makes it exactly 0 or 1.
   */
  function FlagIsSet(flags: Flags, flag: Flags): (r: int)
    ensures r == 0 || r == 1
    ensures r == 1 <==> flags & flag != 0
  {
    if flags & flag != 0 then 1 else 0
  }

  /** `GST_META_FLAG_SET`: switch on every bit of `flag` and no other. */
  function FlagSet(flags: Flags, flag: Flags): (r: Flags)
    ensures r & flag == flag
    ensures r & !flag == flags & !flag
  {
    OrCoversFlag(flags, flag);
    AndNotAfterOr(flags, flag);
    flags | flag
  }

  /** `GST_META_FLAG_UNSET`: switch off every bit of `flag` and no other. */
  function FlagUnset(flags: Flags, flag: Flags): (r: Flags)
    ensures r & flag == 0
    ensures r & !flag == flags & !flag
  {
    AndNotClearsFlag(flags, flag);
    AndNotTwice(flags, flag);
    flags & !flag
  }

  /** After setting a non-empty flag it is reported as set. */
  lemma FlagSetThenIsSet(flags: Flags, flag: Flags)
    requires flag != FlagNone
    ensures FlagIsSet(FlagSet(flags, flag), flag) == 1
  {
  }

  /** After clearing a flag it is reported as not set. */
  lemma FlagUnsetThenNotSet(flags: Flags, flag: Flags)
    ensures FlagIsSet(FlagUnset(flags, flag), flag) == 0
  {
  }

  /** The empty flag is never reported as set, and setting or clearing it does nothing. */
  lemma FlagNoneNeverSet(flags: Flags)
    ensures FlagIsSet(flags, FlagNone) == 0
    ensures FlagSet(flags, FlagNone) == flags
    ensures FlagUnset(flags, FlagNone) == flags
  {
  }

  /** Setting a flag twice is setting it once. */
  lemma FlagSetIdempotent(flags: Flags, flag: Flags)
    ensures FlagSet(FlagSet(flags, flag), flag) == FlagSet(flags, flag)
  {
    OrTwice(flags, flag);
  }

  /** Clearing a flag twice is clearing it once. */
  lemma FlagUnsetIdempotent(flags: Flags, flag: Flags)
    ensures FlagUnset(FlagUnset(flags, flag), flag) == FlagUnset(flags, flag)
  {
    AndNotTwice(flags, flag);
  }

  /** A clear after a set of the same flag leaves no trace of the set. */
  lemma FlagUnsetAfterSet(flags: Flags, flag: Flags)
    ensures FlagUnset(FlagSet(flags, flag), flag) == FlagUnset(flags, flag)
  {
    AndNotAfterOr(flags, flag);
  }

  /** A set after a clear of the same flag leaves no trace of the clear. */
  lemma FlagSetAfterUnset(flags: Flags, flag: Flags)
    ensures FlagSet(FlagUnset(flags, flag), flag) == FlagSet(flags, flag)
  {
    assert FlagSet(FlagUnset(flags, flag), flag) == (flags & !flag) | flag;
    OrAfterAndNot(flags, flag);
  }

  /** Setting a flag leaves the state of every flag sharing no bit with it. */
  lemma FlagSetFrame(flags: Flags, flag: Flags, other: Flags)
    requires flag & other == 0
    ensures FlagIsSet(FlagSet(flags, flag), other) == FlagIsSet(flags, other)
  {
    assert FlagSet(flags, flag) == flags | flag;
    DisjointLaws(flags, flag, other);
  }

  /** Clearing a flag leaves the state of every flag sharing no bit with it. */
  lemma FlagUnsetFrame(flags: Flags, flag: Flags, other: Flags)
    requires flag & other == 0
    ensures FlagIsSet(FlagUnset(flags, flag), other) == FlagIsSet(flags, other)
  {
    assert FlagUnset(flags, flag) == flags & !flag;
    DisjointLaws(flags, flag, other);
  }

  /** Is-set asks whether the word and the flag share a bit position. */
  lemma FlagIsSetMeaning(flags: Flags, flag: Flags)
    ensures FlagIsSet(flags, flag) == 1 <==> Bits(flags) * Bits(flag) != iset{}
  {
    SharedBitIffAndNonzero(flags, flag);
  }

  /** Set adds the flag's bit positions to the word's. */
  lemma FlagSetMeaning(flags: Flags, flag: Flags)
    ensures Bits(FlagSet(flags, flag)) == Bits(flags) + Bits(flag)
  {
    BitsOr(flags, flag);
  }

  /** Unset removes the flag's bit positions from the word's. */
  lemma FlagUnsetMeaning(flags: Flags, flag: Flags)
    ensures Bits(FlagUnset(flags, flag)) == Bits(flags) - Bits(flag)
  {
    BitsAndNot(flags, flag);
  }

  /**
   * The set reading determines the macros: a word has the bit positions
   * of the word plus those of the flag exactly when it is the result of
   * setting the flag.
   */
  lemma FlagSetDeterminedByBits(flags: Flags, flag: Flags, w: Flags)
    ensures Bits(w) == Bits(flags) + Bits(flag) <==> w == FlagSet(flags, flag)
  {
    FlagSetMeaning(flags, flag);
    BitsInjective(w, FlagSet(flags, flag));
  }

  /**
   * A word has the bit positions of the word minus those of the flag
   * exactly when it is the result of clearing the flag.
   */
  lemma FlagUnsetDeterminedByBits(flags: Flags, flag: Flags, w: Flags)
    ensures Bits(w) == Bits(flags) - Bits(flag) <==> w == FlagUnset(flags, flag)
  {
    FlagUnsetMeaning(flags, flag);
    BitsInjective(w, FlagUnset(flags, flag));
  }

  /** Flags share no bit position exactly when their conjunction is zero. */
  lemma DisjointFlags(flag: Flags, other: Flags)
    ensures Bits(flag) * Bits(other) == iset{} <==> flag & other == 0
  {
    SharedBitIffAndNonzero(flag, other);
  }

  /**
   * The core flag values: NONE has no bit, READONLY and POOLED are the
   * distinct single bits 0 and 1, and LAST is bit 16, above both.
   */
  lemma CoreFlags()
    ensures Bits(FlagNone) == iset{}
    ensures Bits(FlagReadonly) == iset{0}
    ensures Bits(FlagPooled) == iset{1}
    ensures Bits(FlagLast) == iset{16}
    ensures FlagReadonly < FlagLast && FlagPooled < FlagLast
  {
    BitsEmptyIffZero(FlagNone);
    BitsOfSingle(0);
    BitsOfSingle(1);
    BitsOfSingle(16);
  }

  /** The flag whose only bit is bit `k`. */
  function ExtensionFlag(k: Position): Flags
  {
    1 << k
  }

  /**
   * An extension flag, a single bit at or above FLAG_LAST, never shares a
   * bit with READONLY or POOLED.
   */
  lemma ExtensionFlagDisjoint(k: Position)
    requires k >= 16
    ensures ExtensionFlag(k) >= FlagLast
    ensures Bits(ExtensionFlag(k)) * Bits(FlagReadonly | FlagPooled) == iset{}
  {
    CoreFlags();
    BitsOfSingle(k);
    BitsOr(FlagReadonly, FlagPooled);
  }
}
