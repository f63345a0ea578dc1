/** The PAC container (sections 2.3, 2.4 and 2.8 of [MS-PAC]) as the `Pac`
    constructor reads and checks it, written as functions: the header checks,
    the walk over the buffer descriptors, the signature blanking that rebuilds
    the bytes the server signature was computed over, the choice between the
    two checksum families, and the final comparison. The imperative decoder
    in module PacDecoder is proved to compute exactly `Validate`. */
module PacSpec {
  import opened Bytes

  // Values of the PacConstants class: the PACTYPE version (section 2.3 of
  // [MS-PAC]) and the buffer types (section 2.4 of [MS-PAC]).
  const PAC_VERSION: int := 0
  const LOGON_INFO: int := 1
  const SERVER_CHECKSUM: int := 6
  const PRIVSVR_CHECKSUM: int := 7

  const HEADER_LENGTH: nat := 8
  const DESCRIPTOR_LENGTH: nat := 16
  /** The signature-type tag in front of every PAC_SIGNATURE_DATA. */
  const SIG_TYPE_LENGTH: nat := 4

  /** hmac-sha1-96-aes128 and hmac-sha1-96-aes256 (section 7 of RFC 3962). */
  const HMAC_SHA1_96_AES128: int := 15
  const HMAC_SHA1_96_AES256: int := 16
  /** Kerberos key usage for application data checksums. */
  const APP_DATA_CKSUM: int := 17

  /** The ways the constructor can fail. */
  datatype Error =
    | EmptyToken          // pac.token.empty
    | InvalidVersion      // pac.version.invalid
    | MalformedToken      // pac.token.malformed, and the runtime faults of the descriptor loop
    | MissingSignature    // the null server signature dereferenced at the checksum dispatch
    | ChecksumUnavailable // pac.check.fail
    | SignatureInvalid    // pac.signature.invalid

  datatype Option<T> = None | Some(value: T)

  datatype Result<T> = Success(value: T) | Failure(error: Error)

  /** The result a method reports as an optional error next to its new state. */
  function Outcome<T>(err: Option<Error>, state: T): Result<T>
  {
    if err.None? then Success(state) else Failure(err.value)
  }

  /** One PAC_INFO_BUFFER record: type, size and offset, as Java reads them. */
  datatype Descriptor = Descriptor(bufferType: int, size: int, offset: int)

  /** A PAC_SIGNATURE_DATA: its type tag and the checksum bytes after it. */
  datatype Signature = Signature(sigType: int, checksum: seq<byte>)

  /** The key handed to the constructor: `Key.getEncoded()` plus whatever
      else `PacMac.init` looks at, which this model leaves abstract. */
  datatype Key = Key(algorithm: string, encoded: seq<byte>)

  /** The two checksum primitives, not part of this model. Each returns None
      where the Java call throws.
      keyed(type, data, encodedKey, usage): `CheckSumHandler.checksumWithKey`.
      mac(key, data): `PacMac` initialised with key, fed data, finalised. */
  datatype Crypto = Crypto(
    keyed: (int, seq<byte>, seq<byte>, int) -> Option<seq<byte>>,
    mac: (Key, seq<byte>) -> Option<seq<byte>>)

  /** The three fields of a `Pac`; LogonInfo is kept as its opaque bytes. */
  datatype Fields = Fields(
    logonInfo: Option<seq<byte>>,
    serverSignature: Option<Signature>,
    kdcSignature: Option<Signature>)

  /** What the descriptor loop has built so far: the fields and the clone. */
  datatype Parsed = Parsed(fields: Fields, checksumData: seq<byte>)

  const NoFields := Fields(None, None, None)

  // ---------------------------------------------------------------- header

  /** `bufferCount` as the loop uses it: a negative count runs no iteration. */
  function BufferCount(data: seq<byte>): (n: nat)
    requires |data| >= HEADER_LENGTH
  {
    var c := Int32At(data, 0);
    if c < 0 then 0 else c
  }

  function Version(data: seq<byte>): int
    requires |data| >= HEADER_LENGTH
  {
    Int32At(data, 4)
  }

  // ----------------------------------------------------------- descriptors

  /** Where descriptor i starts; descriptor n-1 ends at DirectoryEnd(n). */
  function DirectoryEnd(n: nat): nat
  {
    HEADER_LENGTH + DESCRIPTOR_LENGTH * n
  }

  /** The stream still holds all 16 bytes of descriptor i. */
  predicate HasDescriptor(data: seq<byte>, i: nat)
  {
    DirectoryEnd(i + 1) <= |data|
  }

  /** Descriptor i: 4-byte type, 4-byte size, 8-byte offset, from byte 8 + 16 i. */
  function DescriptorAt(data: seq<byte>, i: nat): (d: Descriptor)
    requires HasDescriptor(data, i)
    ensures IsInt32(d.bufferType) && IsInt32(d.size) && IsInt64(d.offset)
  {
    var at := DirectoryEnd(i);
    Descriptor(Int32At(data, at), Int32At(data, at + 4), Int64At(data, at + 8))
  }

  /** The descriptor names a byte range that lies inside the token. */
  predicate Addresses(data: seq<byte>, d: Descriptor)
  {
    0 <= d.size && 0 <= d.offset && d.offset + d.size <= |data|
  }

  /** The sub-buffer `data[offset .. offset+size)` a descriptor refers to, or
      None where the source's array allocation or copy would fault. */
  function SliceOf(data: seq<byte>, d: Descriptor): (r: Option<seq<byte>>)
    ensures r.Some? <==> Addresses(data, d)
    ensures r.Some? ==> |r.value| == d.size
    ensures r.Some? ==> forall j :: 0 <= j < d.size ==> r.value[j] == data[d.offset + j]
  {
    if Addresses(data, d) then Some(data[d.offset..d.offset + d.size]) else None
  }

  predicate IsChecksumType(t: int)
  {
    t == SERVER_CHECKSUM || t == PRIVSVR_CHECKSUM
  }

  // ------------------------------------------------------------ signatures

  /** The bytes of a PAC_SIGNATURE_DATA. */
  function EncodeSignature(sig: Signature): (s: seq<byte>)
    requires IsInt32(sig.sigType)
    ensures |s| == SIG_TYPE_LENGTH + |sig.checksum|
  {
    EncodeInt32(sig.sigType) + sig.checksum
  }

  /** A signature sub-buffer: its 4-byte type tag, then the checksum. */
  function DecodeSignature(buf: seq<byte>): (r: Result<Signature>)
    ensures r.Success? <==> |buf| >= SIG_TYPE_LENGTH
    ensures r.Failure? ==> r.error == MalformedToken
    ensures r.Success? ==> IsInt32(r.value.sigType) && EncodeSignature(r.value) == buf
  {
    if |buf| < SIG_TYPE_LENGTH then Failure(MalformedToken)
    else
      var sig := Signature(Int32At(buf, 0), buf[SIG_TYPE_LENGTH..]);
      Int32Bytes(buf, 0);
      assert buf == buf[..SIG_TYPE_LENGTH] + buf[SIG_TYPE_LENGTH..];
      Success(sig)
  }

  lemma DecodeEncodeSignature(sig: Signature)
    requires IsInt32(sig.sigType)
    ensures DecodeSignature(EncodeSignature(sig)) == Success(sig)
  {
    var s := EncodeSignature(sig);
    Int32RoundTrip(sig.sigType);
    Int32Frame(s, 0, EncodeInt32(sig.sigType), 0);
    assert s[SIG_TYPE_LENGTH..] == sig.checksum;
  }

  // ------------------------------------------------------- canonicalisation

  /** s with the positions lo <= k < hi set to zero (nothing when hi <= lo). */
  function ZeroRange(s: seq<byte>, lo: int, hi: int): (r: seq<byte>)
    requires 0 <= lo && hi <= |s|
    ensures |r| == |s|
    ensures forall k :: 0 <= k < |s| ==> r[k] == if lo <= k < hi then 0 else s[k]
  {
    if hi <= lo then s
    else s[..lo] + seq(hi - lo, _ => 0) + s[hi..]
  }

  /** Position k is among the bytes that descriptor d's signature blanking
      zeroes: past the 4-byte type tag, before the end of the sub-buffer. */
  predicate Blanks(d: Descriptor, k: int)
  {
    IsChecksumType(d.bufferType) && d.offset + SIG_TYPE_LENGTH <= k < d.offset + d.size
  }

  /** Some descriptor among the first n blanks position k. */
  predicate Blanked(data: seq<byte>, n: nat, k: int)
  {
    exists i :: 0 <= i < n && HasDescriptor(data, i) && Blanks(DescriptorAt(data, i), k)
  }

  // ------------------------------------------------------ descriptor loop

  /** The body of the descriptor loop for a descriptor d whose sub-buffer
      is buf: route by type, keep the last of each kind, and blank the
      checksum bytes of the two signature kinds in the clone. */
  function Route(data: seq<byte>, d: Descriptor, buf: seq<byte>, st: Parsed): (r: Result<Parsed>)
    requires Addresses(data, d) && |st.checksumData| == |data|
    ensures r.Success? ==> |r.value.checksumData| == |data|
    ensures r.Failure? ==> r.error == MalformedToken
  {
    if d.bufferType == LOGON_INFO then
      Success(st.(fields := st.fields.(logonInfo := Some(buf))))
    else if d.bufferType == SERVER_CHECKSUM then
      match DecodeSignature(buf)
      case Failure(e) => Failure(e)
      case Success(sig) =>
        Success(Parsed(st.fields.(serverSignature := Some(sig)),
                       ZeroRange(st.checksumData, d.offset + SIG_TYPE_LENGTH, d.offset + d.size)))
    else if d.bufferType == PRIVSVR_CHECKSUM then
      match DecodeSignature(buf)
      case Failure(e) => Failure(e)
      case Success(sig) =>
        Success(Parsed(st.fields.(kdcSignature := Some(sig)),
                       ZeroRange(st.checksumData, d.offset + SIG_TYPE_LENGTH, d.offset + d.size)))
    else
      Success(st)
  }

  /** Iteration i of the descriptor loop: read the record, slice, route. */
  function Step(data: seq<byte>, i: nat, st: Parsed): (r: Result<Parsed>)
    requires |st.checksumData| == |data|
    ensures r.Success? ==> |r.value.checksumData| == |data|
    ensures r.Failure? ==> r.error == MalformedToken
  {
    if !HasDescriptor(data, i) then Failure(MalformedToken)
    else
      var d := DescriptorAt(data, i);
      match SliceOf(data, d)
      case None => Failure(MalformedToken)
      case Some(buf) => Route(data, d, buf, st)
  }

  /** The state after the first n iterations of the descriptor loop, starting
      from no fields and an unmodified clone of data. */
  function Scan(data: seq<byte>, n: nat): (r: Result<Parsed>)
    ensures r.Success? ==> |r.value.checksumData| == |data|
    ensures r.Failure? ==> r.error == MalformedToken
  {
    if n == 0 then Success(Parsed(NoFields, data))
    else
      match Scan(data, n - 1)
      case Failure(e) => Failure(e)
      case Success(st) => Step(data, n - 1, st)
  }

  /** Header checks, then the whole descriptor loop. */
  function Parse(data: seq<byte>): (r: Result<Parsed>)
    ensures r.Success? ==> |data| > HEADER_LENGTH && Version(data) == PAC_VERSION
    ensures r.Success? ==> |r.value.checksumData| == |data|
    ensures r.Failure? ==> r.error == EmptyToken || r.error == InvalidVersion || r.error == MalformedToken
    ensures |data| <= HEADER_LENGTH ==> r == Failure(EmptyToken)
  {
    if |data| <= HEADER_LENGTH then Failure(EmptyToken)
    else if Version(data) != PAC_VERSION then Failure(InvalidVersion)
    else Scan(data, BufferCount(data))
  }

  // --------------------------------------------------------- verification

  /** The server signature's type selects the keyed Kerberos checksum. */
  predicate IsStrongType(t: int)
  {
    t == HMAC_SHA1_96_AES128 || t == HMAC_SHA1_96_AES256
  }

  /** The checksum the constructor computes over the blanked clone. */
  function ComputeChecksum(sigType: int, checksumData: seq<byte>, key: Key, crypto: Crypto): (r: Result<seq<byte>>)
    ensures r.Failure? ==> r.error == ChecksumUnavailable
    ensures r.Failure? <==>
      (if IsStrongType(sigType)
       then crypto.keyed(sigType, checksumData, key.encoded, APP_DATA_CKSUM)
       else crypto.mac(key, checksumData)).None?
    ensures IsStrongType(sigType) && crypto.keyed(sigType, checksumData, key.encoded, APP_DATA_CKSUM).Some? ==>
      r == Success(crypto.keyed(sigType, checksumData, key.encoded, APP_DATA_CKSUM).value)
    ensures !IsStrongType(sigType) && crypto.mac(key, checksumData).Some? ==>
      r == Success(crypto.mac(key, checksumData).value)
  {
    var out :=
      if IsStrongType(sigType)
      then crypto.keyed(sigType, checksumData, key.encoded, APP_DATA_CKSUM)
      else crypto.mac(key, checksumData);
    match out
    case None => Failure(ChecksumUnavailable)
    case Some(c) => Success(c)
  }

  /** The whole constructor: the fields of the new `Pac`, or why it throws. */
  function Validate(data: seq<byte>, key: Key, crypto: Crypto): (r: Result<Fields>)
    ensures Parse(data).Failure? ==> r == Failure(Parse(data).error)
    ensures r.Success? ==> Parse(data).Success? && r.value == Parse(data).value.fields
    ensures Parse(data).Success? && Parse(data).value.fields.serverSignature.None? ==> r == Failure(MissingSignature)
    ensures r.Success? ==> r.value.serverSignature.Some?
    ensures r.Success? ==>
      ComputeChecksum(r.value.serverSignature.value.sigType, Parse(data).value.checksumData, key, crypto)
        == Success(r.value.serverSignature.value.checksum)
  {
    match Parse(data)
    case Failure(e) => Failure(e)
    case Success(p) =>
      match p.fields.serverSignature
      case None => Failure(MissingSignature)
      case Some(sig) =>
        match ComputeChecksum(sig.sigType, p.checksumData, key, crypto)
        case Failure(e) => Failure(e)
        case Success(c) =>
          if c == sig.checksum then Success(p.fields) else Failure(SignatureInvalid)
  }
}
