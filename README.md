# PAC container parser and server-signature check

This project models the constructor `Pac(byte[] data, Key key)` of the
jaaslounge decoding library, together with its three getters. The
constructor reads a Kerberos Privilege Attribute Certificate. The layout is
the PACTYPE header of section 2.3 of [MS-PAC], followed by PAC_INFO_BUFFER
descriptors (section 2.4) and PAC_SIGNATURE_DATA buffers (section 2.8). The
constructor works in this order:

1. It clones the token.
2. It rejects a token of 8 bytes or fewer, and a version word other than
   `PAC_VERSION`.
3. It walks `bufferCount` descriptors. Each is a 16-byte record: a 32-bit
   type, a 32-bit size and a 64-bit offset.
4. For each descriptor it copies out the sub-buffer and routes it by type:
   logon info, server checksum, KDC checksum, or ignored.
5. In the clone it zeroes the checksum bytes of both signature buffers. The
   4-byte type tag of each is kept.
6. It computes the server checksum over the blanked clone. Types 15 and 16
   use the keyed Kerberos checksum with key usage 17 (`APP_DATA_CKSUM`).
   Every other type uses `PacMac`.
7. It compares the result with the stored checksum.

The model has seven modules:

- `Bytes` decodes and encodes Java's little-endian `int` and `long` fields
  as two's-complement values.
- `PacSpec` is the functional specification of the constructor: `Step` is
  one loop iteration, `Scan` is the loop, `Parse` adds the header checks,
  and `Validate` is the whole constructor.
- `PacProperties` gives a declarative description of the accepted tokens,
  without a loop (`Reference`), and proves `Validate` equal to it.
- `PacDecoder` is the imperative `Pac` class. It keeps the three fields,
  zeroes in place over an `array` clone, and runs a cursor loop. Each method
  is proved against `PacSpec`.
- `PacIntegrity` proves what the signature check protects and what it does
  not.
- `PacBuild` builds a signed three-buffer token, as a KDC would, and proves
  that the constructor accepts it.
- `PacFindings` models the `(int)` cast of the offset as written, next to
  the checked slice the rest of the model uses.

The Java code fails in several ways only implicitly. The model makes each
one an explicit error:

- A negative `bufferSize` would throw `NegativeArraySizeException`; the model
  returns `MalformedToken`.
- An out-of-range `arraycopy` also returns `MalformedToken`.
- A signature buffer shorter than its 4-byte tag returns `MalformedToken`.
- A token without a server signature would dereference `null`; the model
  returns `MissingSignature`.

Two failures are handled explicitly by the code. A stream that ends inside
the directory raises an `IOException`, which the code catches and rethrows
as `pac.token.malformed`; the model's `MalformedToken` is that error. A
checksum primitive that throws is caught and rethrown as `pac.check.fail`;
the model's `ChecksumUnavailable` is that error. `mac.doFinal()` lies outside
that `try`, so a failure there would escape uncaught; the model folds it
into `mac` returning None, that is, into `ChecksumUnavailable` as well.

Section 2.4 of [MS-PAC] defines PAC_INFO_BUFFER as `ULONG ulType`,
`ULONG cbBufferSize` and `ULONG64 Offset`: 16 bytes, all unsigned. The code
reads these fields as a signed `int`, `int` and `long` and advances by 16
bytes. The model follows the code, so the fields are signed, and a negative
size or offset is refused as `MalformedToken`.

## Model

| member | source | states |
|---|---|---|
| Bytes.Int32RoundTrip | src/main/java/org/jaaslounge/decoding/pac/Pac.java:35-36 | a 32-bit field written little-endian reads back as the same signed `int` |
| Bytes.Int64RoundTrip | src/main/java/org/jaaslounge/decoding/pac/Pac.java:50 | a 64-bit offset written little-endian reads back as the same signed `long` |
| Bytes.Int32Bytes | src/main/java/org/jaaslounge/decoding/pac/Pac.java:48-49 | the four bytes of a field are exactly the encoding of the `int` read from them, so decoding loses nothing |
| Bytes.Int32At | src/main/java/org/jaaslounge/decoding/pac/Pac.java:35-36 | `readInt` gives a signed 32-bit value; `Int32RoundTrip` and `Int32Bytes` show that it is the little-endian reading of the four bytes |
| Bytes.Int64At | src/main/java/org/jaaslounge/decoding/pac/Pac.java:50 | `readLong` gives a signed 64-bit value; `Int64RoundTrip` shows that it is the little-endian reading of the eight bytes |
| Bytes.Int32Frame | src/main/java/org/jaaslounge/decoding/pac/Pac.java:35-36 | an `int` read depends only on its four bytes |
| Bytes.Int64Frame | src/main/java/org/jaaslounge/decoding/pac/Pac.java:50 | a `long` read depends only on its eight bytes |
| PacSpec.Route | src/main/java/org/jaaslounge/decoding/pac/Pac.java:54-75 | the switch fails only with MalformedToken (a signature shorter than its tag); `RouteAccepts` and `UnknownTypeIgnored` state what each case records and blanks |
| PacSpec.Step | src/main/java/org/jaaslounge/decoding/pac/Pac.java:46-75 | one loop iteration keeps the clone's length and fails only with MalformedToken; `StepAccepts` and `StepRejects` state when it succeeds and what it yields |
| PacSpec.Scan | src/main/java/org/jaaslounge/decoding/pac/Pac.java:44-76 | the loop over n descriptors keeps the clone's length and fails only with MalformedToken; `ScanCharacterised` gives its result in closed form |
| PacSpec.Parse | src/main/java/org/jaaslounge/decoding/pac/Pac.java:26-81 | an accepted token is longer than 8 bytes and has version `PAC_VERSION`; a token of 8 bytes or fewer gives EmptyToken; the only errors are EmptyToken, InvalidVersion and MalformedToken |
| PacSpec.ComputeChecksum | src/main/java/org/jaaslounge/decoding/pac/Pac.java:85-112 | types 15 and 16 take the keyed Kerberos checksum with usage 17 and every other type takes `PacMac`; the result is an error exactly when the selected primitive fails, that error is ChecksumUnavailable (`pac.check.fail`), and otherwise it is the primitive's checksum |
| PacSpec.Validate | src/main/java/org/jaaslounge/decoding/pac/Pac.java:24-116 | a parse error is the constructor's error; no server signature gives MissingSignature; on success the fields are the parsed ones and the checksum over the blanked clone equals the stored one; `ValidateIsReference` gives the whole constructor without a loop |
| PacSpec.DescriptorAt | src/main/java/org/jaaslounge/decoding/pac/Pac.java:48-50 | descriptor i holds a 32-bit type, a 32-bit size and a 64-bit offset |
| PacSpec.SliceOf | src/main/java/org/jaaslounge/decoding/pac/Pac.java:51-52 | the copy exists exactly when 0 <= size and 0 <= offset and offset + size <= length; it has `size` bytes and equals `data[offset + j]` at every j |
| PacSpec.DecodeSignature | src/main/java/org/jaaslounge/decoding/pac/Pac.java:62-69 | a signature buffer decodes exactly when it holds at least the 4-byte tag, and re-encoding the result gives back the buffer; otherwise the error is MalformedToken |
| PacSpec.DecodeEncodeSignature | src/main/java/org/jaaslounge/decoding/pac/Pac.java:62-69 | decoding an encoded signature gives back the signature |
| PacSpec.ZeroRange | src/main/java/org/jaaslounge/decoding/pac/Pac.java:64-65 | the result keeps the length, is 0 inside [lo, hi) and equals the input elsewhere |
| PacProperties.LastOfType | src/main/java/org/jaaslounge/decoding/pac/Pac.java:58-69 | a found index lies among the first n descriptors and has the requested type |
| PacProperties.LastOfTypeIsLast | src/main/java/org/jaaslounge/decoding/pac/Pac.java:58-69 | no later descriptor has that type, and None means that no descriptor has it: the last one wins |
| PacProperties.ScanFailureSticks | src/main/java/org/jaaslounge/decoding/pac/Pac.java:78-80 | once an iteration fails, the loop ends with that failure whatever the count |
| PacProperties.ScanAdvance | src/main/java/org/jaaslounge/decoding/pac/Pac.java:44-76 | an iteration either extends the state to the next index, or ends the whole loop with its error |
| PacProperties.CanonicalStep | src/main/java/org/jaaslounge/decoding/pac/Pac.java:63-72 | blanking every range of the first n descriptors is blanking the first n - 1 and then descriptor n - 1 |
| PacProperties.WellFormedPrefix | src/main/java/org/jaaslounge/decoding/pac/Pac.java:44 | a prefix of an acceptable directory is acceptable |
| PacProperties.SignatureOfSlice | src/main/java/org/jaaslounge/decoding/pac/Pac.java:52-62 | the signature decoded from a copied sub-buffer is its tag read at the offset, followed by the bytes after the tag |
| PacProperties.LastFieldsStep | src/main/java/org/jaaslounge/decoding/pac/Pac.java:54-75 | the last buffer of each kind among n descriptors is that of n - 1, updated by the switch on descriptor n - 1 |
| PacProperties.RouteAccepts | src/main/java/org/jaaslounge/decoding/pac/Pac.java:54-75 | an acceptable descriptor's body records its buffer in its own field and blanks its own range |
| PacProperties.StepAccepts | src/main/java/org/jaaslounge/decoding/pac/Pac.java:44-76 | over an acceptable directory, each iteration takes the declarative state for n - 1 descriptors to the one for n |
| PacProperties.StepRejects | src/main/java/org/jaaslounge/decoding/pac/Pac.java:48-80 | the first unreadable or out-of-range descriptor fails its iteration with MalformedToken |
| PacProperties.UnknownTypeIgnored | src/main/java/org/jaaslounge/decoding/pac/Pac.java:74 | a descriptor of any other type sets no field and changes no byte of the clone |
| PacProperties.HeaderRejects | src/main/java/org/jaaslounge/decoding/pac/Pac.java:32-42 | a token of at most 8 bytes is EmptyToken; a wrong version word is InvalidVersion whatever bytes follow it |
| PacProperties.ScanCharacterised | src/main/java/org/jaaslounge/decoding/pac/Pac.java:26-80 | the loop over n descriptors succeeds if and only if all n are readable and in range (a signature also at least 4 bytes); it fails only with MalformedToken; on success it holds the last buffer of each kind, and a clone zeroed exactly on the checksum bytes of every signature descriptor and equal to the token elsewhere |
| PacProperties.ValidateIsReference | src/main/java/org/jaaslounge/decoding/pac/Pac.java:24-116 | the constructor equals its loop-free description: header checks, then an acceptable directory, then a server signature, then a checksum over the canonical clone that must equal the stored one |
| PacDecoder.Pac.Blank | src/main/java/org/jaaslounge/decoding/pac/Pac.java:20-22 | a new Pac holds no fields |
| PacDecoder.Pac.GetLogonInfo | src/main/java/org/jaaslounge/decoding/pac/Pac.java:118-121 | returns the logon-info field; by `Create`'s contract it is the last logon-info buffer that `Validate` gives |
| PacDecoder.Pac.GetServerSignature | src/main/java/org/jaaslounge/decoding/pac/Pac.java:123-126 | returns the server-signature field; by `Create`'s contract it is `Validate`'s server signature |
| PacDecoder.Pac.GetKdcSignature | src/main/java/org/jaaslounge/decoding/pac/Pac.java:128-131 | returns the KDC-signature field; by `Create`'s contract it is `Validate`'s KDC signature |
| PacDecoder.Pac.ClearSignature | src/main/java/org/jaaslounge/decoding/pac/Pac.java:64-72 | the in-place loop leaves the clone zeroed on [offset + 4, offset + size) and unchanged elsewhere |
| PacDecoder.Pac.ReadBuffer | src/main/java/org/jaaslounge/decoding/pac/Pac.java:46-75 | one pass of the loop body over the object's fields and the clone array computes `Step`, including its error |
| PacDecoder.Pac.ReadBuffers | src/main/java/org/jaaslounge/decoding/pac/Pac.java:44-76 | the cursor loop computes `Scan` over the signed count word, running no iteration when that word is negative, and stops at the first error |
| PacDecoder.Pac.ParseBuffers | src/main/java/org/jaaslounge/decoding/pac/Pac.java:26-81 | clone, header checks and the loop compute `Parse`: the same error, or fresh fields and the blanked clone |
| PacDecoder.Pac.CheckServerSignature | src/main/java/org/jaaslounge/decoding/pac/Pac.java:83-115 | no error exactly when the checksum the type selects succeeds and equals the stored one; otherwise ChecksumUnavailable if the primitive failed, and SignatureInvalid if not |
| PacDecoder.Pac.Create | src/main/java/org/jaaslounge/decoding/pac/Pac.java:24-131 | the constructor fails exactly when `Validate` does, with the same error; on success the getters return `Validate`'s fields |
| PacIntegrity.FieldsBelow | src/main/java/org/jaaslounge/decoding/pac/Pac.java:35-50 | two tokens that agree on their first m bytes read the same header and the same descriptors within those bytes |
| PacIntegrity.LastOfTypeSameUpTo | src/main/java/org/jaaslounge/decoding/pac/Pac.java:54-75 | tokens with the same directory route every prefix of it alike |
| PacIntegrity.LastOfTypeSame | src/main/java/org/jaaslounge/decoding/pac/Pac.java:54-75 | tokens with the same directory pick the same descriptor for each kind |
| PacIntegrity.DirectoryDecides | src/main/java/org/jaaslounge/decoding/pac/Pac.java:44-76 | the directory alone decides whether a token is accepted by the loop and which bytes it blanks |
| PacIntegrity.TamperKeepsDirectory | src/main/java/org/jaaslounge/decoding/pac/Pac.java:35-50 | changing one byte after the directory keeps the count, the version and every descriptor |
| PacIntegrity.Accepted | src/main/java/org/jaaslounge/decoding/pac/Pac.java:32-116 | an accepted token has the right version, an acceptable directory and a server signature whose checksum over the canonical clone is the stored one, and the result is the last buffer of each kind |
| PacIntegrity.Verdict | src/main/java/org/jaaslounge/decoding/pac/Pac.java:83-115 | for a parsable token with a server signature, the outcome is decided by the checksum of the canonical clone alone |
| PacIntegrity.CanonicalAgrees | src/main/java/org/jaaslounge/decoding/pac/Pac.java:63-72 | a change to a blanked byte leaves every byte of the clone unchanged |
| PacIntegrity.CanonicalHidesBlanked | src/main/java/org/jaaslounge/decoding/pac/Pac.java:63-72 | a change to a blanked byte does not change the clone the checksum is computed over |
| PacIntegrity.SliceAgrees | src/main/java/org/jaaslounge/decoding/pac/Pac.java:52 | a change outside a range leaves the copy of that range unchanged |
| PacIntegrity.SignatureAltered | src/main/java/org/jaaslounge/decoding/pac/Pac.java:62-69 | a change to a checksum byte keeps the signature's type and changes its checksum |
| PacIntegrity.SignatureKept | src/main/java/org/jaaslounge/decoding/pac/Pac.java:62-69 | a change outside a signature buffer leaves the signature as it was |
| PacIntegrity.ServerSignatureAltered | src/main/java/org/jaaslounge/decoding/pac/Pac.java:60-66 | a change inside the server checksum that wins keeps its type and changes its checksum |
| PacIntegrity.ServerSignatureKept | src/main/java/org/jaaslounge/decoding/pac/Pac.java:60-66 | a change outside the server signature buffer that wins leaves the server signature unchanged |
| PacIntegrity.ServerChecksumTamperRejected | src/main/java/org/jaaslounge/decoding/pac/Pac.java:83-115 | changing one byte of the stored server checksum of an accepted token makes the constructor fail with SignatureInvalid |
| PacIntegrity.TamperOutsideSignaturesChangesChecksumInput | src/main/java/org/jaaslounge/decoding/pac/Pac.java:26-72 | a changed byte that no signature descriptor blanks still parses, and reaches the checksummed clone as its new value |
| PacIntegrity.BlankedBytesOutsideServerSignatureUnchecked | src/main/java/org/jaaslounge/decoding/pac/Pac.java:70-115 | a changed byte inside the KDC checksum (blanked, outside the server signature) is accepted with the same server signature: the KDC checksum is not covered |
| PacIntegrity.CoveredTamperRejected | src/main/java/org/jaaslounge/decoding/pac/Pac.java:83-115 | a changed byte after the directory that no signature blanks and that lies outside the server signature is rejected (SignatureInvalid or ChecksumUnavailable), provided the checksum of the tampered clone differs from the checksum of the original clone |
| PacFindings.JavaIntCast | src/main/java/org/jaaslounge/decoding/pac/Pac.java:52 | the narrowing cast yields a 32-bit value congruent to its input modulo 2^32 |
| PacFindings.JavaIntCastIdentity | src/main/java/org/jaaslounge/decoding/pac/Pac.java:52 | the cast keeps every value that already fits in an `int` |
| PacFindings.SliceAsWritten | src/main/java/org/jaaslounge/decoding/pac/Pac.java:51-52 | the copy as written succeeds exactly when the size and the cast offset are in range, and reads from the cast offset |
| PacFindings.SliceOfRefinesAsWritten | src/main/java/org/jaaslounge/decoding/pac/Pac.java:51-52 | on a token Java can hold, wherever the checked slice succeeds the copy as written reads the same bytes |
| PacFindings.TruncatedOffsetAliases | src/main/java/org/jaaslounge/decoding/pac/Pac.java:52 | offset 0x1_0000_0008 with size 4 is copied from bytes 8..12 as written, and refused by the checked slice |
| PacBuild.Int32Reads | src/main/java/org/jaaslounge/decoding/pac/Pac.java:35-49 | a field reads back as the value written there |
| PacBuild.Int64Reads | src/main/java/org/jaaslounge/decoding/pac/Pac.java:50 | an offset reads back as the value written there |
| PacBuild.DescriptorReads | src/main/java/org/jaaslounge/decoding/pac/Pac.java:48-50 | an encoded descriptor record reads back as that descriptor |
| PacBuild.RecordRoundTrip | src/main/java/org/jaaslounge/decoding/pac/Pac.java:48-50 | decoding an encoded record gives back the descriptor |
| PacBuild.RecordAt | src/main/java/org/jaaslounge/decoding/pac/Pac.java:48-50 | descriptor i is the record held in its own 16 bytes |
| PacBuild.DirectoryReads | src/main/java/org/jaaslounge/decoding/pac/Pac.java:35-50 | a built directory reads as count 3, `PAC_VERSION` and the three descriptors it was built from |
| PacBuild.AssembledLaidOut | src/main/java/org/jaaslounge/decoding/pac/Pac.java:35-52 | every field of a built token reads as written |
| PacBuild.StepReads | src/main/java/org/jaaslounge/decoding/pac/Pac.java:46-75 | an acceptable descriptor's iteration records its buffer and blanks its range |
| PacBuild.ScanLaidOut | src/main/java/org/jaaslounge/decoding/pac/Pac.java:44-76 | the loop over a laid-out token yields the three buffers it was built from, with both checksums blanked |
| PacBuild.BlankedClone | src/main/java/org/jaaslounge/decoding/pac/Pac.java:63-72 | blanking a built token's two signatures yields the token built with zero checksums |
| PacBuild.ParseAssembled | src/main/java/org/jaaslounge/decoding/pac/Pac.java:26-81 | parsing a built token gives back its contents, and the clone the signer checksummed |
| PacBuild.SignedTokenAccepted | src/main/java/org/jaaslounge/decoding/pac/Pac.java:24-131 | a token signed as a KDC does (checksum over the zero-checksum token) is accepted, with the logon bytes, the KDC signature and the signature type it was built with |

Proof helpers without a row: `PacSpec.BufferCount` (the count word, read as
zero when negative), `PacProperties.ScanNext`, `LastBufferStep`,
`LastSignatureStep`, `LogonStep` and `SignatureStep`, and
`PacIntegrity.LastOfTypeUnfold`, `SharedDescriptor` and `BlankedAlike`. Each
is one unfolding or one proof step of the members above.

## Left out

- The checksum primitives are `CheckSumHandler.checksumWithKey` with
  `CheckSumType.fromValue`, `PacMac`, and `Key.getEncoded`. They are fields
  of the `Crypto` parameter, functions that may fail (None) and are
  otherwise uninterpreted. The model proves everything around them, not the
  primitives.
- `PacLogonInfo` is NDR decoding, which is not part of this model. The
  logon-info buffer is kept as an opaque byte slice. A decoding failure
  inside `PacLogonInfo` is not modelled.
- `PacSignature` is not part of this model. A signature is modelled as the
  4-byte little-endian type tag followed by the checksum bytes, as section
  2.8 of [MS-PAC] lays it out. A buffer shorter than the tag is
  MalformedToken.
- `PacDataInputStream` and `PacConstants` are not part of this model.
  Fields are read little-endian, as [MS-PAC] lays them out. The constants
  are `PAC_VERSION` 0, the PACTYPE version of section 2.3 of [MS-PAC], and
  the buffer types `LOGON_INFO` 1, `SERVER_CHECKSUM` 6 and
  `PRIVSVR_CHECKSUM` 7 of section 2.4. Checksum types 15 and 16 come from
  section 7 of RFC 3962. Key usage 17 (`KERB_NON_KERB_CKSUM_SALT`) is the
  one section 2.8.1 of [MS-PAC] prescribes for the PAC checksums.
- Exception message keys and their `args` arrays are reduced to the
  variants of `Error`.
- `Arrays.equals` is modelled as sequence equality. Whether the comparison
  runs in constant time is a timing property and is not expressible here.
- The code never verifies the KDC signature, and neither does the model.
  `BlankedBytesOutsideServerSignatureUnchecked` states the consequence.
- The input array is a `seq<byte>`, which cannot change, so "the input is
  never modified" holds by construction. Only the clone is an `array`.
- PacIntegrity.CoveredTamperRejected: it assumes that the checksum of the
  tampered token's blanked clone differs from the checksum of the original
  clone. The two clones differ at the changed byte
  (`TamperOutsideSignaturesChangesChecksumInput`), but whether a fixed-length
  checksum separates them is a property of the cryptography, not of this
  code. Without that assumption, a changed byte is rejected only when it
  lands in the stored server checksum (`ServerChecksumTamperRejected`).

## Findings

| source | as written | input that shows it | evidently intended | confidence | as-written member | corrected member |
|---|---|---|---|---|---|---|
| src/main/java/org/jaaslounge/decoding/pac/Pac.java:52 | the 64-bit `bufferOffset` is narrowed with `(int)` before `System.arraycopy` (and before the zeroing index at lines 65 and 72), so an offset of 2^32 + j addresses byte j | a token of at least 12 bytes with a logon-info descriptor of size 4 and offset 0x1_0000_0008: the copy hands out bytes 8..12, the first descriptor record, instead of failing | an offset that does not itself lie in the token is refused as malformed | not executed; follows from Java's narrowing conversion | PacFindings.TruncatedOffsetAliases | PacSpec.SliceOf |
