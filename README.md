# Utility core of an IDA plugin support library, in Dafny

This project models the parts of the plugin's utility header that compute
something: the compact semantic-version word, the in-place `CLAMP`
template, and the `STACKALIGN` address rounding. It proves their
properties in Dafny.

- **Version word** (`version_codec.dfy`, module `VersionCodec`). One
  unsigned 32-bit word holds a 2-bit release stage (bits 31..30), then a
  10-bit major, a 10-bit minor and a 10-bit patch. The packing macro masks
  each field and never validates, so an out-of-range field is silently
  truncated. Four extraction macros undo the packing. The stage enumeration
  names RELEASE = 0, ALPHA = 1 and BETA = 2. The field's fourth value, 3,
  names no stage; the model keeps it as a separate `Unnamed` stage. All
  arithmetic is on `bv32`, which is exactly the header's UINT32 arithmetic.
  The proofs cover these properties:
  - round trip for in-range fields;
  - truncation modulo 4 and 1024 for all inputs;
  - fields do not interfere with each other;
  - unpacking and then packing again gives back every word;
  - every word is some version, and packing is one-to-one;
  - the packed word equals the positional sum of its fields, with no
    carry past bit 31;
  - unsigned order on packed words is lexicographic order on (stage, major,
    minor, patch). As a result, every packed ALPHA or BETA word is larger
    than every packed RELEASE word. This is not the precedence of Semantic
    Versioning 2.0.0, which the header links: there a pre-release ranks
    below its release. Here the packed 0.0.1 ALPHA is larger than the packed
    9.9.9 RELEASE, so the numeric order of packed words is not SemVer order.
- **Clamp** (`clamp.dfy`, module `Clamping`). The method `Clamp` models the
  reference argument: the value comes in as `x` and leaves as `x'`. It is
  proved against the function `Clamped`. For a non-empty range, `Clamped` is
  the point of the range nearest to `x`. It is also `max(lo, min(x, hi))`,
  it is idempotent and it is monotone. The model also fixes what happens
  with the bounds the wrong way round: the lower bound is tested first.
- **Stack alignment** (`stack_align.dfy`, module `StackAlign`). The object
  goes at `(space + 15) & ~15` inside a buffer of `size + 15` bytes.
  The `+ 15` is pointer arithmetic on the byte array, done before the cast
  to UINT_PTR, and it lands on the buffer's byte 15. Addresses are naturals
  below 2^64, and `& ~15` clears the four low bits. The proofs show these
  properties:
  - every buffer of an object of at least one byte leaves room for its byte
    15 inside the address space;
  - the address is 16-aligned and within [space, space + 15], both on the
    arithmetic model and on the literal 64-bit expression;
  - it is the least aligned address at or above the buffer;
  - an already-aligned buffer address is used unchanged;
  - the object fits in the buffer.

## Model

| member | source | states |
|---|---|---|
| `VersionCodec.StageNumber` | Utility.h:40-45 | the body gives RELEASE, ALPHA, BETA the enumerator values 0, 1, 2; the contract bounds every stage number by 3 and gives 3 to the unnamed stage alone |
| `VersionCodec.StageOf` | Utility.h:40-47 | casting a 2-bit stage number to the enumeration is the inverse of `StageNumber` |
| `VersionCodec.MakeSemanticVersion` | Utility.h:46 | for any arguments, the packed word unpacks to stage mod 4, major mod 1024, minor mod 1024 and patch mod 1024 |
| `VersionCodec.GetVersionStageBits` | Utility.h:47 | the stage field is at most 3 and is the word's quotient by 2^30 |
| `VersionCodec.GetVersionStage` | Utility.h:47 | the decoded stage's number is the quotient by 2^30; the stage is a named enumerator exactly when the word is below 0xC000_0000 |
| `VersionCodec.GetVersionMajor` | Utility.h:48 | the major is at most 1023 and is (word / 2^20) mod 1024 |
| `VersionCodec.GetVersionMinor` | Utility.h:49 | the minor is at most 1023 and is (word / 2^10) mod 1024 |
| `VersionCodec.GetVersionPatch` | Utility.h:50 | the patch is at most 1023 and is word mod 1024 |
| `VersionCodec.RoundTrip` | Utility.h:46-50 | with major, minor and patch at most 1023, unpacking gives back exactly the stage and numbers that were packed, for all four stages |
| `VersionCodec.MajorOnePastMaximumWrapsToZero` | Utility.h:46-48 | for any stage, minor and patch, a major of 1024 is packed as major 0, and the word is the same as the one packed with major 0 |
| `VersionCodec.FieldsIndependent` | Utility.h:46-50 | each unpacked field depends only on its own packing argument; changing the other three leaves it unchanged |
| `VersionCodec.UnpackThenPack` | Utility.h:46-50 | packing the four unpacked fields of any 32-bit word gives back that word |
| `VersionCodec.EveryWordIsAVersion` | Utility.h:46-50 | every 32-bit word is the packing of some stage and numbers that are each at most 1023 |
| `VersionCodec.PackingInjective` | Utility.h:46-50 | two in-range versions with equal packed words have equal stages and numbers |
| `VersionCodec.PackedIsPositional` | Utility.h:46 | the packed word is (stage mod 4)·2^30 + (major mod 1024)·2^20 + (minor mod 1024)·2^10 + patch mod 1024, and no partial sum carries past bit 31 |
| `VersionCodec.WordOrderIsFieldOrder` | Utility.h:47-50 | for any two words, unsigned `<` holds exactly when their unpacked fields compare lexicographically, stage first |
| `VersionCodec.PackedOrderIsLexicographic` | Utility.h:37-50 | for in-range versions, comparing packed words compares (stage, major, minor, patch) lexicographically |
| `Clamping.Clamped` | Utility.h:35 | for lo ≤ hi the result lies in [lo, hi] and is the point of the range nearest to x; a value already in range is kept |
| `Clamping.Clamp` | Utility.h:35 | the reference argument ends up holding `Clamped(x, lo, hi)` |
| `Clamping.ClampedIsMaxOfMin` | Utility.h:35 | for lo ≤ hi, clamping equals max(lo, min(x, hi)) and min(hi, max(x, lo)) |
| `Clamping.ClampedOutsideGoesToBound` | Utility.h:35 | for lo ≤ hi, x below lo becomes lo and x above hi becomes hi |
| `Clamping.ClampedInvertedBounds` | Utility.h:35 | for hi < lo, x below lo becomes lo and any other x becomes hi, which is below lo |
| `Clamping.ClampedIdempotent` | Utility.h:35 | clamping twice into the same non-empty range equals clamping once |
| `Clamping.ClampedMonotone` | Utility.h:35 | clamping into a non-empty range preserves ≤ |
| `Clamping.ClampedFixedPoints` | Utility.h:35 | clamping leaves x unchanged exactly when x lies in the non-empty range |
| `StackAlign.ClearLowBits` | Utility.h:24 | `x & ~15` is a multiple of 16, at most x, and more than x − 16 |
| `StackAlign.BufferLength` | Utility.h:23 | the buffer (the object's size plus 15 bytes) is longer than the object, and at least 16 bytes exactly when the object is at least one byte |
| `StackAlign.MaskedAddressAligned` | Utility.h:24 | on 64-bit words, `(space + 15) & ~15` has its four low bits clear |
| `StackAlign.MaskedAddressInRange` | Utility.h:24 | on 64-bit words, when adding 15 does not wrap, `(space + 15) & ~15` lies in [space, space + 15] |
| `StackAlign.NoBufferAtTop` | Utility.h:23-24 | for an object of at least one byte, a buffer inside the address space has its byte 15 inside it too, so `space + 15` is an address |
| `StackAlign.AlignedAddress` | Utility.h:22-24 | for a buffer whose byte 15 is an address, the object's address is a 64-bit address, a multiple of 16, and lies in [space, space + 15] |
| `StackAlign.AlignedAddressIsLeast` | Utility.h:24 | no multiple of 16 at or above the buffer's address is below the object's address |
| `StackAlign.AlignedAddressKeepsAligned` | Utility.h:24 | an already-aligned buffer address is used unchanged |
| `StackAlign.ObjectFitsInBuffer` | Utility.h:22-24 | for an object of at least one byte and a buffer of size + 15 bytes inside the address space, the object's address is defined and its size bytes start at or after the buffer and end by its end |

## Left out

- `MakeSemanticVersion`: its arguments are taken as UINT32 values. The conversion of a signed or wider argument to UINT32 is not modelled. That conversion keeps the low 32 bits, and the masks keep fewer bits still.
- `Clamp`: modelled on integers only. The template accepts any type with `<` and `>`; the model assumes these compare as integers do.
- `AlignedAddress`: requires `space + 15` to be an address, because the header forms it by pointer arithmetic inside the buffer. A buffer in the last 15 addresses cannot exist (`NoBufferAtTop`), and C++ leaves a pointer addition that leaves its array undefined, so the model gives no value there.
- `AlignedAddress`: UINT_PTR is modelled as 64 bits wide. A 32-bit build behaves the same way with 2^32 in place of 2^64.
- `AlignedAddress`: `& ~15` is modelled arithmetically, as subtracting the remainder modulo 16. On 64-bit bit-vectors the literal expression is proved aligned and within [space, space + 15] (`MaskedAddressAligned`, `MaskedAddressInRange`), but the least-address and object-fit statements ran out of the verifier's resource bound there, even with helper lemmas. Those two are proved on the arithmetic model only.
- `STACKALIGN` declares a stack array and a reference into it. Only the address arithmetic is modelled; the storage and the reference are not.
- `CLock` (Utility.h:72-83) wraps an operating-system critical section, with spin count 20. Its behaviour is concurrency and foreign calls, so it is not part of this model.
- `ReportException`, `C_EXCEPT` and `CATCH` (Utility.h:87-94) trap structured and C++ exceptions and write to the host's log. This is platform fault handling and I/O.
- `GetVersionString`, `GetTimestamp`, `trace`, `TimestampString`, `NumberCommaString`, `GetErrorString` and `DumpData` (Utility.h:52, 61, 65-69) are only declared, with no body. Their output formats cannot be known. The version string's format is not part of this model.
- `EAFORMAT`, `SIZESTR`, `ALIGN` and the `__STR1__`, `__STR2__`, `__LOC__` and `__LOC2__` macros (Utility.h:11-33) are preprocessor and formatting glue.
- The `SECOND`, `MINUTE` and `HOUR` constants and the `TIMESTAMP` type (Utility.h:56-59) belong to the floating-point timestamp, which is not modelled.
