/**
 * The BCH-coded information fields (`getVersionInfoBits` and
 * `getFormatInfoBits` in packages/core/src/utils.ts): a short data word is
 * shifted left by the degree of a generator polynomial over GF(2) and the
 * remainder of the long division by that generator fills the low bits. The
 * format field is then XORed with the fixed mask 0x5412.
 *
 * Values are JavaScript 32-bit integers; every intermediate value stays
 * below 2^18, so `bv32` arithmetic is exact here. The division loops have
 * fixed bounds (six rounds for `i` = 17 .. 12, five for `i` = 4 .. 0) and
 * are written out round by round.
 */
module InfoBits {

  /** The version-information generator x^12 + x^11 + x^10 + x^9 + x^8 + x^5 + x^2 + 1. */
  const VersionGenerator: bv32 := 0x1F25
  /** The format-information generator x^10 + x^8 + x^5 + x^4 + x^2 + x + 1. */
  const FormatGenerator: bv32 := 0x537
  const FormatMask: bv32 := 0x5412

  /** One round of the version division at bit `i`: XOR in the generator shifted to `i` when that bit is set. */
  function VersionStep(d: bv32, i: nat): bv32
    requires 12 <= i <= 17
  {
    if d & (1 << i) != 0 then d ^ (VersionGenerator << (i - 12)) else d
  }

  /** The six rounds of `getVersionInfoBits`, `i` from 17 down to 12. */
  function VersionDivide(d: bv32): bv32
  {
    VersionStep(VersionStep(VersionStep(VersionStep(VersionStep(VersionStep(d, 17), 16), 15), 14), 13), 12)
  }

  /** `getVersionInfoBits(version)`: the six version bits followed by the 12 remainder bits. */
  function VersionInfoBits(version: bv32): bv32
    requires version < 64
  {
    var versionBits := version << 12;
    versionBits | (VersionDivide(versionBits) & 0xFFF)
  }

  /** The version field holds the version in its top six bits and fits in 18 bits. */
  lemma VersionFields(version: bv32)
    requires version < 64
    ensures VersionInfoBits(version) < 1 << 18
    ensures VersionInfoBits(version) >> 12 == version
  {
  }

  /** The six rounds applied to a finished version codeword, one call at a time. */
  lemma VersionRounds(version: bv32)
    requires version < 64
    ensures var c := VersionInfoBits(version);
            VersionStep(VersionStep(VersionStep(VersionStep(VersionStep(VersionStep(c, 17), 16), 15), 14), 13), 12) == 0
  {
  }

  /**
   * Dividing the finished codeword again leaves no remainder: the codeword is
   * a multiple of the generator, which is what a decoder checks.
   */
  lemma VersionSyndrome(version: bv32)
    requires version < 64
    ensures VersionDivide(VersionInfoBits(version)) == 0
  {
    VersionRounds(version);
  }

  /** One round of the format division at `i`: bit `i + 10` against 0x537 shifted by `i`. */
  function FormatStep(reg: bv32, i: nat): bv32
    requires i <= 4
  {
    if reg & (1 << (i + 10)) != 0 then reg ^ (FormatGenerator << i) else reg
  }

  /** The five rounds of `getFormatInfoBits`, `i` from 4 down to 0. */
  function FormatDivide(reg: bv32): bv32
  {
    FormatStep(FormatStep(FormatStep(FormatStep(FormatStep(reg, 4), 3), 2), 1), 0)
  }

  /** The five data bits of the format field: the level's two bits, then the mask number. */
  function FormatData(ecBits: bv32, mask: bv32): bv32
    requires ecBits < 4 && mask < 8
  {
    (ecBits << 3) | mask
  }

  /** `getFormatInfoBits(errorCorrectionBit, maskPattern)`, mask applied. */
  function FormatInfoBits(ecBits: bv32, mask: bv32): bv32
    requires ecBits < 4 && mask < 8
  {
    var formatInfo := FormatData(ecBits, mask);
    var errorCorrectionBits := FormatDivide(formatInfo << 10) & 0x3FF;
    var pattern := (formatInfo << 10) | errorCorrectionBits;
    pattern ^ FormatMask
  }

  /** The format field fits in 15 bits and, unmasked, carries the data bits on top. */
  lemma FormatFields(ecBits: bv32, mask: bv32)
    requires ecBits < 4 && mask < 8
    ensures FormatInfoBits(ecBits, mask) < 1 << 15
    ensures (FormatInfoBits(ecBits, mask) ^ FormatMask) >> 10 == FormatData(ecBits, mask)
  {
  }

  /** The five rounds applied to an unmasked format codeword, one call at a time. */
  lemma FormatRounds(ecBits: bv32, mask: bv32)
    requires ecBits < 4 && mask < 8
    ensures var c := FormatInfoBits(ecBits, mask) ^ FormatMask;
            FormatStep(FormatStep(FormatStep(FormatStep(FormatStep(c, 4), 3), 2), 1), 0) & 0x3FF == 0
  {
  }

  /** Dividing the unmasked field again leaves no remainder: it is a multiple of 0x537. */
  lemma FormatSyndrome(ecBits: bv32, mask: bv32)
    requires ecBits < 4 && mask < 8
    ensures FormatDivide(FormatInfoBits(ecBits, mask) ^ FormatMask) & 0x3FF == 0
  {
    FormatRounds(ecBits, mask);
  }

  /** The first entry of the version-information table of ISO/IEC 18004 (Annex D). */
  lemma VersionFirstEntry()
    ensures VersionInfoBits(7) == 0x07C94
  {
  }

  /** The last entry of that table. */
  lemma VersionLastEntry()
    ensures VersionInfoBits(40) == 0x28C69
  {
  }

  /** Entries of the format-information table of ISO/IEC 18004 (Annex C), level bits L=1, Q=3, H=2. */
  lemma FormatKnownValues()
    ensures FormatInfoBits(1, 0) == 0x77C4
    ensures FormatInfoBits(3, 0) == 0x355F
    ensures FormatInfoBits(2, 7) == 0x083B
  {
  }

  /** Level M with mask 0 has all-zero data and remainder, so the field is the mask itself. */
  lemma FormatZero()
    ensures FormatInfoBits(0, 0) == 0x5412
  {
  }

  /** Different (level, mask) pairs get different format fields. */
  lemma FormatInjective(e1: bv32, m1: bv32, e2: bv32, m2: bv32)
    requires e1 < 4 && m1 < 8 && e2 < 4 && m2 < 8
    requires FormatInfoBits(e1, m1) == FormatInfoBits(e2, m2)
    ensures e1 == e2 && m1 == m2
  {
    FormatFields(e1, m1);
    FormatFields(e2, m2);
  }
}
