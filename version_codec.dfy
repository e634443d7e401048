/** The plugin's compact semantic-version word.

    A version is packed into one unsigned 32-bit word (UINT32), from the most
    significant bit down: a 2-bit release stage (bits 31..30), a 10-bit major
    (bits 29..20), a 10-bit minor (bits 19..10) and a 10-bit patch (bits 9..0).
    Packing never validates: every field is masked, so an out-of-range field
    is silently truncated. All arithmetic is on `bv32`, which is exactly the
    UINT32 arithmetic of the packing and unpacking expressions; an argument
    is taken after its conversion to UINT32.
 */
module VersionCodec {

  /** The release stage. The enumeration names three stages; the 2-bit field
      can also hold 3, which names no stage and is kept apart as `Unnamed`. */
  datatype VersionStage = Release | Alpha | Beta | Unnamed

  /** Mask of the 2-bit stage field, before it is shifted into place. */
  const STAGE_MASK: bv32 := 3
  /** Mask of each 10-bit number field: 0 to 1023. */
  const FIELD_MASK: bv32 := 0x3FF

  /** The numeric value of a stage: the enumerators count up from 0, and the
      unnamed stage is the remaining 2-bit value 3. */
  function StageNumber(s: VersionStage): (n: bv32)
    ensures n <= STAGE_MASK
    ensures n == 3 <==> s == Unnamed
  {
    match s
    case Release => 0
    case Alpha => 1
    case Beta => 2
    case Unnamed => 3
  }

  /** Converting a stage number back to a stage: the enumeration cast. */
  function StageOf(n: bv32): (s: VersionStage)
    requires n <= STAGE_MASK
    ensures StageNumber(s) == n
  {
    if n == 0 then Release
    else if n == 1 then Alpha
    else if n == 2 then Beta
    else Unnamed
  }

  /** A named stage is one the enumeration declares. */
  predicate IsNamedStage(s: VersionStage)
  {
    s != Unnamed
  }

  /** Packs a version: each field is masked to its width and shifted into
      place, and the four are or-ed together. Whatever the arguments, each
      unpacking expression gives back its own argument truncated to the
      field's width (the remainder modulo 4 or 1024). */
  function MakeSemanticVersion(stage: bv32, major: bv32, minor: bv32, patch: bv32): (v: bv32)
    ensures GetVersionStageBits(v) == stage % 4
    ensures GetVersionMajor(v) == major % 1024
    ensures GetVersionMinor(v) == minor % 1024
    ensures GetVersionPatch(v) == patch % 1024
  {
    ((stage & STAGE_MASK) << 30) | ((major & FIELD_MASK) << 20)
      | ((minor & FIELD_MASK) << 10) | (patch & FIELD_MASK)
  }

  /** The stage field as a number, before the enumeration cast: the top two
      bits, that is the quotient by 2^30. */
  function GetVersionStageBits(v: bv32): (n: bv32)
    ensures n <= STAGE_MASK
    ensures n == v / 0x4000_0000
  {
    v >> 30
  }

  /** The stage of a packed version. It is the unnamed stage exactly when
      both top bits are set, so every word from 0xC000_0000 up carries a
      stage that the enumeration does not name. */
  function GetVersionStage(v: bv32): (s: VersionStage)
    ensures StageNumber(s) == v / 0x4000_0000
    ensures IsNamedStage(s) <==> v < 0xC000_0000
  {
    StageOf(GetVersionStageBits(v))
  }

  /** The major number: bits 29..20, at most 1023. */
  function GetVersionMajor(v: bv32): (n: bv32)
    ensures n <= FIELD_MASK
    ensures n == (v / 0x10_0000) % 1024
  {
    (v >> 20) & FIELD_MASK
  }

  /** The minor number: bits 19..10, at most 1023. */
  function GetVersionMinor(v: bv32): (n: bv32)
    ensures n <= FIELD_MASK
    ensures n == (v / 0x400) % 1024
  {
    (v >> 10) & FIELD_MASK
  }

  /** The patch number: bits 9..0, at most 1023. */
  function GetVersionPatch(v: bv32): (n: bv32)
    ensures n <= FIELD_MASK
    ensures n == v % 1024
  {
    v & FIELD_MASK
  }

  /** Round trip: a version whose numbers are all in 0..1023 unpacks to
      exactly the stage and numbers it was packed from, for each of the
      four stages. */
  lemma RoundTrip(stage: VersionStage, major: bv32, minor: bv32, patch: bv32)
    requires major <= FIELD_MASK && minor <= FIELD_MASK && patch <= FIELD_MASK
    ensures var v := MakeSemanticVersion(StageNumber(stage), major, minor, patch);
      && GetVersionStage(v) == stage
      && GetVersionMajor(v) == major
      && GetVersionMinor(v) == minor
      && GetVersionPatch(v) == patch
  {
  }

  /** Truncation, not an error: a major of 1024, one past the largest, is
      packed as major 0 and disturbs no other field, whatever the others are. */
  lemma MajorOnePastMaximumWrapsToZero(stage: bv32, minor: bv32, patch: bv32)
    ensures var v := MakeSemanticVersion(stage, 1024, minor, patch);
      && GetVersionMajor(v) == 0
      && v == MakeSemanticVersion(stage, 0, minor, patch)
  {
  }

  /** The fields do not interfere: each unpacked field depends on its own
      argument alone, so changing any of the other three arguments of the
      packing leaves it as it was. */
  lemma FieldsIndependent(s1: bv32, M1: bv32, m1: bv32, p1: bv32,
                          s2: bv32, M2: bv32, m2: bv32, p2: bv32)
    ensures var v1 := MakeSemanticVersion(s1, M1, m1, p1);
      && GetVersionStageBits(v1) == GetVersionStageBits(MakeSemanticVersion(s1, M2, m2, p2))
      && GetVersionMajor(v1) == GetVersionMajor(MakeSemanticVersion(s2, M1, m2, p2))
      && GetVersionMinor(v1) == GetVersionMinor(MakeSemanticVersion(s2, M2, m1, p2))
      && GetVersionPatch(v1) == GetVersionPatch(MakeSemanticVersion(s2, M2, m2, p1))
  {
  }

  /** Unpacking and packing again gives back every 32-bit word: the four
      fields, 2 + 10 + 10 + 10 bits, cover the whole word. */
  lemma UnpackThenPack(v: bv32)
    ensures MakeSemanticVersion(StageNumber(GetVersionStage(v)), GetVersionMajor(v),
                                GetVersionMinor(v), GetVersionPatch(v)) == v
  {
  }

  /** Every 32-bit word is the packing of some in-range version: no word is
      left without a meaning. */
  lemma EveryWordIsAVersion(v: bv32)
    ensures exists stage: VersionStage, major: bv32, minor: bv32, patch: bv32
      :: major <= FIELD_MASK && minor <= FIELD_MASK && patch <= FIELD_MASK
         && MakeSemanticVersion(StageNumber(stage), major, minor, patch) == v
  {
    UnpackThenPack(v);
    var stage, major, minor, patch :=
      GetVersionStage(v), GetVersionMajor(v), GetVersionMinor(v), GetVersionPatch(v);
    assert MakeSemanticVersion(StageNumber(stage), major, minor, patch) == v;
  }

  /** Packing is one-to-one on in-range versions: two versions whose packed
      words are equal have the same stage and numbers. */
  lemma PackingInjective(s1: VersionStage, M1: bv32, m1: bv32, p1: bv32,
                         s2: VersionStage, M2: bv32, m2: bv32, p2: bv32)
    requires M1 <= FIELD_MASK && m1 <= FIELD_MASK && p1 <= FIELD_MASK
    requires M2 <= FIELD_MASK && m2 <= FIELD_MASK && p2 <= FIELD_MASK
    requires MakeSemanticVersion(StageNumber(s1), M1, m1, p1)
          == MakeSemanticVersion(StageNumber(s2), M2, m2, p2)
    ensures s1 == s2 && M1 == M2 && m1 == m2 && p1 == p2
  {
    RoundTrip(s1, M1, m1, p1);
    RoundTrip(s2, M2, m2, p2);
  }

  /** The packed word is the positional number whose digits, in bases 4 and
      1024, are the truncated fields: the or-ing of the masked and shifted
      fields is an addition of their weighted values. The additions are
      UINT32 additions, but none of them carries past bit 31 (each running
      sum is at least its left summand), so the word equals the integer sum. */
  lemma PackedIsPositional(stage: bv32, major: bv32, minor: bv32, patch: bv32)
    ensures var s, M, m, p := (stage % 4) * 0x4000_0000, (major % 1024) * 0x10_0000,
                              (minor % 1024) * 0x400, patch % 1024;
      && s <= s + M && s + M <= s + M + m && s + M + m <= s + M + m + p
      && MakeSemanticVersion(stage, major, minor, patch) == s + M + m + p
  {
  }

  /** Lexicographic order on in-range versions, the stage number most
      significant, then major, minor and patch. */
  predicate VersionLess(s1: bv32, M1: bv32, m1: bv32, p1: bv32,
                        s2: bv32, M2: bv32, m2: bv32, p2: bv32)
  {
    s1 < s2 || (s1 == s2 && (M1 < M2 || (M1 == M2 && (m1 < m2 || (m1 == m2 && p1 < p2)))))
  }

  /** Unsigned comparison of any two words is the lexicographic comparison
      of their unpacked fields, the stage first. */
  lemma WordOrderIsFieldOrder(x: bv32, y: bv32)
    ensures x < y <==> VersionLess(GetVersionStageBits(x), GetVersionMajor(x), GetVersionMinor(x), GetVersionPatch(x),
                                   GetVersionStageBits(y), GetVersionMajor(y), GetVersionMinor(y), GetVersionPatch(y))
  {
    SplitLessAt30(x, y);
    SplitLessAt20(x, y);
    SplitLessAt10(x, y);
  }

  // The three steps of WordOrderIsFieldOrder: unsigned comparison split at
  // one field boundary into the field above it and the bits below it.

  lemma SplitLessAt30(x: bv32, y: bv32)
    ensures x < y <==> x >> 30 < y >> 30
                       || (x >> 30 == y >> 30 && x & 0x3FFF_FFFF < y & 0x3FFF_FFFF)
  {
  }

  lemma SplitLessAt20(x: bv32, y: bv32)
    ensures x & 0x3FFF_FFFF < y & 0x3FFF_FFFF
      <==> (x >> 20) & 0x3FF < (y >> 20) & 0x3FF
           || ((x >> 20) & 0x3FF == (y >> 20) & 0x3FF && x & 0xF_FFFF < y & 0xF_FFFF)
  {
  }

  lemma SplitLessAt10(x: bv32, y: bv32)
    ensures x & 0xF_FFFF < y & 0xF_FFFF
      <==> (x >> 10) & 0x3FF < (y >> 10) & 0x3FF
           || ((x >> 10) & 0x3FF == (y >> 10) & 0x3FF && x & 0x3FF < y & 0x3FF)
  {
  }

  /** WordOrderIsFieldOrder, for words whose fields are known. */
  lemma OrderFromFields(v1: bv32, v2: bv32, s1: bv32, M1: bv32, m1: bv32, p1: bv32,
                        s2: bv32, M2: bv32, m2: bv32, p2: bv32)
    requires GetVersionStageBits(v1) == s1 && GetVersionMajor(v1) == M1
    requires GetVersionMinor(v1) == m1 && GetVersionPatch(v1) == p1
    requires GetVersionStageBits(v2) == s2 && GetVersionMajor(v2) == M2
    requires GetVersionMinor(v2) == m2 && GetVersionPatch(v2) == p2
    ensures v1 < v2 <==> VersionLess(s1, M1, m1, p1, s2, M2, m2, p2)
  {
    WordOrderIsFieldOrder(v1, v2);
  }

  /** Comparing packed words as unsigned numbers compares in-range versions
      lexicographically, the stage first: a packed ALPHA or BETA word is
      larger than every packed RELEASE word, whatever their numbers. */
  lemma PackedOrderIsLexicographic(s1: bv32, M1: bv32, m1: bv32, p1: bv32,
                                   s2: bv32, M2: bv32, m2: bv32, p2: bv32)
    requires s1 <= STAGE_MASK && M1 <= FIELD_MASK && m1 <= FIELD_MASK && p1 <= FIELD_MASK
    requires s2 <= STAGE_MASK && M2 <= FIELD_MASK && m2 <= FIELD_MASK && p2 <= FIELD_MASK
    ensures MakeSemanticVersion(s1, M1, m1, p1) < MakeSemanticVersion(s2, M2, m2, p2)
        <==> VersionLess(s1, M1, m1, p1, s2, M2, m2, p2)
  {
    OrderFromFields(MakeSemanticVersion(s1, M1, m1, p1), MakeSemanticVersion(s2, M2, m2, p2),
                    s1, M1, m1, p1, s2, M2, m2, p2);
  }
}
