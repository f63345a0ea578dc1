/** Writing a PAC the way a KDC does, to state the round trip the
    constructor is built for: lay out a logon-info buffer, a server signature
    and a KDC signature behind a three-entry directory, compute the server
    checksum over the token with both checksums zeroed, embed it, and the
    constructor accepts the result and hands back the logon bytes. */
module PacBuild {
  import opened Bytes
  import opened PacSpec
  import opened PacProperties

  /** The 16-byte directory record of a descriptor. */
  function EncodeDescriptor(d: Descriptor): (s: seq<byte>)
    requires IsInt32(d.bufferType) && IsInt32(d.size) && IsInt64(d.offset)
    ensures |s| == DESCRIPTOR_LENGTH
  {
    EncodeInt32(d.bufferType) + EncodeInt32(d.size) + EncodeInt64(d.offset)
  }

  /** n zero bytes. */
  function Zeros(n: nat): (s: seq<byte>)
  {
    seq(n, _ => 0)
  }

  /** What goes into a token: the logon-info bytes and the two signatures. */
  datatype Contents = Contents(logon: seq<byte>, server: Signature, kdc: Signature)

  /** Where the three sub-buffers start: right after the directory. */
  const BODY_START: nat := 56

  /** Every field of the token fits its 32- or 64-bit slot. */
  predicate Fits(c: Contents)
  {
    IsInt32(c.server.sigType) && IsInt32(c.kdc.sigType) &&
    BODY_START + |c.logon| + 2 * SIG_TYPE_LENGTH + |c.server.checksum| + |c.kdc.checksum| < INT32_HALF
  }

  function LogonEntry(c: Contents): Descriptor
  {
    Descriptor(LOGON_INFO, |c.logon|, BODY_START)
  }

  function ServerEntry(c: Contents): Descriptor
  {
    Descriptor(SERVER_CHECKSUM, SIG_TYPE_LENGTH + |c.server.checksum|, BODY_START + |c.logon|)
  }

  function KdcEntry(c: Contents): Descriptor
  {
    Descriptor(PRIVSVR_CHECKSUM, SIG_TYPE_LENGTH + |c.kdc.checksum|,
               BODY_START + |c.logon| + SIG_TYPE_LENGTH + |c.server.checksum|)
  }

  /** Header (buffer count 3, PAC_VERSION) and the three descriptor records. */
  function Directory(c: Contents): (s: seq<byte>)
    requires Fits(c)
    ensures |s| == DirectoryEnd(3) == BODY_START
  {
    EncodeInt32(3) + EncodeInt32(PAC_VERSION) +
    EncodeDescriptor(LogonEntry(c)) + EncodeDescriptor(ServerEntry(c)) + EncodeDescriptor(KdcEntry(c))
  }

  /** The three sub-buffers, one after the other. */
  function Body(c: Contents): (s: seq<byte>)
    requires Fits(c)
    ensures |s| == |c.logon| + 2 * SIG_TYPE_LENGTH + |c.server.checksum| + |c.kdc.checksum|
  {
    c.logon + EncodeSignature(c.server) + EncodeSignature(c.kdc)
  }

  /** The whole token. */
  function Assemble(c: Contents): (s: seq<byte>)
    requires Fits(c)
    ensures |s| == BODY_START + |c.logon| + 2 * SIG_TYPE_LENGTH + |c.server.checksum| + |c.kdc.checksum|
  {
    Directory(c) + Body(c)
  }

  /** The contents with both checksums replaced by zeros of the same length. */
  function Blank(c: Contents): Contents
  {
    Contents(c.logon, Signature(c.server.sigType, Zeros(|c.server.checksum|)),
             Signature(c.kdc.sigType, Zeros(|c.kdc.checksum|)))
  }

  /** Sign as a KDC does: compute the server checksum of type sigType (whose
      digests are m bytes long) over the token with both checksums zeroed,
      then write it in. None where the primitive fails or gives another length. */
  function Sign(logon: seq<byte>, sigType: int, m: nat, kdc: Signature, key: Key, crypto: Crypto): Option<seq<byte>>
    requires Fits(Contents(logon, Signature(sigType, Zeros(m)), kdc))
  {
    var template := Blank(Contents(logon, Signature(sigType, Zeros(m)), kdc));
    match ComputeChecksum(sigType, Assemble(template), key, crypto)
    case Failure(_) => None
    case Success(cs) =>
      if |cs| == m then Some(Assemble(Contents(logon, Signature(sigType, cs), kdc))) else None
  }

  // ------------------------------------------------------- reading it back

  /** A 32-bit field reads back from the 4 bytes it was written as. */
  lemma Int32Reads(s: seq<byte>, at: nat, x: int)
    requires IsInt32(x) && at + 4 <= |s| && s[at..at + 4] == EncodeInt32(x)
    ensures Int32At(s, at) == x
  {
    assert EncodeInt32(x)[0..4] == EncodeInt32(x);
    Int32Frame(s, at, EncodeInt32(x), 0);
    Int32RoundTrip(x);
  }

  /** A 64-bit field reads back from the 8 bytes it was written as. */
  lemma Int64Reads(s: seq<byte>, at: nat, x: int)
    requires IsInt64(x) && at + 8 <= |s| && s[at..at + 8] == EncodeInt64(x)
    ensures Int64At(s, at) == x
  {
    assert EncodeInt64(x)[0..8] == EncodeInt64(x);
    Int64Frame(s, at, EncodeInt64(x), 0);
    Int64RoundTrip(x);
  }

  /** Where the three parts of x + y + z sit inside s. */
  lemma Split3(s: seq<byte>, at: nat, x: seq<byte>, y: seq<byte>, z: seq<byte>)
    requires at + |x| + |y| + |z| <= |s| && s[at..at + |x| + |y| + |z|] == x + y + z
    ensures s[at..at + |x|] == x
    ensures s[at + |x|..at + |x| + |y|] == y
    ensures s[at + |x| + |y|..at + |x| + |y| + |z|] == z
  {
    var r := s[at..at + |x| + |y| + |z|];
    assert forall j | 0 <= j < |r| :: s[at + j] == r[j];
    assert r[..|x|] == x && r[|x|..|x| + |y|] == y && r[|x| + |y|..] == z;
    SameBytes(s[at..at + |x|], x);
    SameBytes(s[at + |x|..at + |x| + |y|], y);
    SameBytes(s[at + |x| + |y|..at + |x| + |y| + |z|], z);
  }

  /** Descriptor record i reads back as the descriptor it was written from. */
  lemma DescriptorReads(s: seq<byte>, i: nat, d: Descriptor)
    requires IsInt32(d.bufferType) && IsInt32(d.size) && IsInt64(d.offset)
    requires HasDescriptor(s, i) && s[DirectoryEnd(i)..DirectoryEnd(i) + DESCRIPTOR_LENGTH] == EncodeDescriptor(d)
    ensures DescriptorAt(s, i) == d
  {
    RecordAt(s, i);
    RecordRoundTrip(d);
  }

  /** A 16-byte descriptor record, decoded on its own. */
  function DecodeRecord(r: seq<byte>): Descriptor
    requires |r| == DESCRIPTOR_LENGTH
  {
    Descriptor(Int32At(r, 0), Int32At(r, 4), Int64At(r, 8))
  }

  /** Descriptor i is the record held in its 16 bytes. */
  lemma RecordAt(s: seq<byte>, i: nat)
    requires HasDescriptor(s, i)
    ensures DescriptorAt(s, i) == DecodeRecord(s[DirectoryEnd(i)..DirectoryEnd(i) + DESCRIPTOR_LENGTH])
  {
    var at := DirectoryEnd(i);
    var r := s[at..at + DESCRIPTOR_LENGTH];
    SubSlice(s, at, DESCRIPTOR_LENGTH, 0, 4);
    Int32Frame(s, at, r, 0);
    SubSlice(s, at, DESCRIPTOR_LENGTH, 4, 8);
    Int32Frame(s, at + 4, r, 4);
    SubSlice(s, at, DESCRIPTOR_LENGTH, 8, 16);
    Int64Frame(s, at + 8, r, 8);
  }

  /** Bytes [lo, hi) of the slice at `at` are bytes [at + lo, at + hi). */
  lemma SubSlice(s: seq<byte>, at: nat, len: nat, lo: nat, hi: nat)
    requires at + len <= |s| && lo <= hi <= len
    ensures s[at + lo..at + hi] == s[at..at + len][lo..hi]
  {
    SameBytes(s[at + lo..at + hi], s[at..at + len][lo..hi]);
  }

  /** A record decodes to the descriptor it was encoded from. */
  lemma RecordRoundTrip(d: Descriptor)
    requires IsInt32(d.bufferType) && IsInt32(d.size) && IsInt64(d.offset)
    ensures DecodeRecord(EncodeDescriptor(d)) == d
  {
    var r := EncodeDescriptor(d);
    Split3(r, 0, EncodeInt32(d.bufferType), EncodeInt32(d.size), EncodeInt64(d.offset));
    Int32Reads(r, 0, d.bufferType);
    Int32Reads(r, 4, d.size);
    Int64Reads(r, 8, d.offset);
  }

  /** The header and the three records read back as written. */
  lemma DirectoryReads(c: Contents, body: seq<byte>)
    requires Fits(c)
    ensures var s := Directory(c) + body;
      Int32At(s, 0) == 3 && Int32At(s, 4) == PAC_VERSION &&
      HasDescriptor(s, 2) &&
      DescriptorAt(s, 0) == LogonEntry(c) &&
      DescriptorAt(s, 1) == ServerEntry(c) &&
      DescriptorAt(s, 2) == KdcEntry(c)
  {
    var h0, h1 := EncodeInt32(3), EncodeInt32(PAC_VERSION);
    var e0, e1, e2 := EncodeDescriptor(LogonEntry(c)), EncodeDescriptor(ServerEntry(c)), EncodeDescriptor(KdcEntry(c));
    var s := Directory(c) + body;
    DirectoryParts(h0, h1, e0, e1, e2, body);
    Int32Reads(s, 0, 3);
    Int32Reads(s, 4, PAC_VERSION);
    DescriptorReads(s, 0, LogonEntry(c));
    DescriptorReads(s, 1, ServerEntry(c));
    DescriptorReads(s, 2, KdcEntry(c));
  }

  /** Where the header fields and the three records of h0 + h1 + e0 + e1 + e2 + body sit. */
  lemma DirectoryParts(h0: seq<byte>, h1: seq<byte>, e0: seq<byte>, e1: seq<byte>, e2: seq<byte>, body: seq<byte>)
    requires |h0| == |h1| == 4 && |e0| == |e1| == |e2| == DESCRIPTOR_LENGTH
    ensures var s := h0 + h1 + e0 + e1 + e2 + body;
      s[0..4] == h0 && s[4..8] == h1 && s[8..24] == e0 && s[24..40] == e1 && s[40..56] == e2
  {
  }

  /** Blanking leaves the directory as it was. */
  lemma BlankSameDirectory(c: Contents)
    requires Fits(c)
    ensures Fits(Blank(c)) && Directory(Blank(c)) == Directory(c)
  {
  }

  /** The header and directory of a token laid out from c, as they read. */
  predicate DirectoryLaidOut(s: seq<byte>, c: Contents)
    requires Fits(c)
  {
    |s| >= BODY_START &&
    Int32At(s, 0) == 3 && Int32At(s, 4) == PAC_VERSION &&
    DescriptorAt(s, 0) == LogonEntry(c) &&
    DescriptorAt(s, 1) == ServerEntry(c) &&
    DescriptorAt(s, 2) == KdcEntry(c)
  }

  /** The sub-buffers of a token laid out from c, as they read. */
  predicate BodyLaidOut(s: seq<byte>, c: Contents)
    requires Fits(c)
  {
    var L, S, K := |c.logon|, |c.server.checksum|, |c.kdc.checksum|;
    var a1 := BODY_START + L + SIG_TYPE_LENGTH;
    var a2 := a1 + S + SIG_TYPE_LENGTH;
    |s| == a2 + K &&
    s[BODY_START..BODY_START + L] == c.logon &&
    Int32At(s, a1 - SIG_TYPE_LENGTH) == c.server.sigType && s[a1..a1 + S] == c.server.checksum &&
    Int32At(s, a2 - SIG_TYPE_LENGTH) == c.kdc.sigType && s[a2..a2 + K] == c.kdc.checksum
  }

  /** What a token laid out from c reads as, field by field. */
  predicate LaidOut(s: seq<byte>, c: Contents)
    requires Fits(c)
  {
    DirectoryLaidOut(s, c) && BodyLaidOut(s, c)
  }

  /** Where the parts of a + (l + (t1 + x) + (t2 + y)) sit. */
  lemma Parts(a: seq<byte>, l: seq<byte>, t1: seq<byte>, x: seq<byte>, t2: seq<byte>, y: seq<byte>)
    ensures var s := a + (l + (t1 + x) + (t2 + y));
      var i1 := |a| + |l| + |t1|;
      var i2 := i1 + |x| + |t2|;
      s[|a|..|a| + |l|] == l &&
      s[|a| + |l|..i1] == t1 && s[i1..i1 + |x|] == x &&
      s[i1 + |x|..i2] == t2 && s[i2..i2 + |y|] == y
  {
  }

  /** Zeroing x and y in a + (l + (t1 + x) + (t2 + y)). */
  lemma ZeroParts(a: seq<byte>, l: seq<byte>, t1: seq<byte>, x: seq<byte>, t2: seq<byte>, y: seq<byte>)
    ensures var s := a + (l + (t1 + x) + (t2 + y));
      var i1 := |a| + |l| + |t1|;
      var i2 := i1 + |x| + |t2|;
      ZeroRange(ZeroRange(s, i1, i1 + |x|), i2, i2 + |y|) == a + (l + (t1 + Zeros(|x|)) + (t2 + Zeros(|y|)))
  {
    var s := a + (l + (t1 + x) + (t2 + y));
    var i1 := |a| + |l| + |t1|;
    var i2 := i1 + |x| + |t2|;
    SameBytes(ZeroRange(ZeroRange(s, i1, i1 + |x|), i2, i2 + |y|), a + (l + (t1 + Zeros(|x|)) + (t2 + Zeros(|y|))));
  }

  /** The bytes of a signature are its type tag and then its checksum. */
  lemma SignatureParts(sig: Signature)
    requires IsInt32(sig.sigType)
    ensures EncodeSignature(sig) == EncodeInt32(sig.sigType) + sig.checksum
  {
  }

  /** The sub-buffers of an assembled token read as written. */
  lemma AssembledBody(c: Contents)
    requires Fits(c)
    ensures BodyLaidOut(Assemble(c), c)
  {
    var s := Assemble(c);
    var t1, t2 := EncodeInt32(c.server.sigType), EncodeInt32(c.kdc.sigType);
    var a1 := BODY_START + |c.logon| + SIG_TYPE_LENGTH;
    var a2 := a1 + |c.server.checksum| + SIG_TYPE_LENGTH;
    assert s == Directory(c) + (c.logon + (t1 + c.server.checksum) + (t2 + c.kdc.checksum)) by {
      SignatureParts(c.server);
      SignatureParts(c.kdc);
    }
    Parts(Directory(c), c.logon, t1, c.server.checksum, t2, c.kdc.checksum);
    Int32Reads(s, a1 - SIG_TYPE_LENGTH, c.server.sigType);
    Int32Reads(s, a2 - SIG_TYPE_LENGTH, c.kdc.sigType);
  }

  /** An assembled token is laid out from its contents. */
  lemma AssembledLaidOut(c: Contents)
    requires Fits(c)
    ensures LaidOut(Assemble(c), c)
  {
    DirectoryReads(c, Body(c));
    AssembledBody(c);
  }

  /** A checksum descriptor over a type tag and checksum holds that signature. */
  lemma SignatureReads(s: seq<byte>, d: Descriptor, sig: Signature)
    requires Acceptable(s, d) && IsChecksumType(d.bufferType)
    requires d.size == SIG_TYPE_LENGTH + |sig.checksum|
    requires Int32At(s, d.offset) == sig.sigType
    requires s[d.offset + SIG_TYPE_LENGTH..d.offset + d.size] == sig.checksum
    ensures SignatureAt(s, d) == sig
  {
  }

  /** An iteration over an acceptable descriptor, for any token. */
  lemma StepReads(s: seq<byte>, i: nat, d: Descriptor, st: Parsed)
    requires |st.checksumData| == |s|
    requires HasDescriptor(s, i) && DescriptorAt(s, i) == d && Acceptable(s, d)
    ensures Step(s, i, st) == Success(Parsed(Record(s, d, st.fields), BlankOf(st.checksumData, d)))
  {
    RouteAccepts(s, d, st);
  }

  /** The first iteration over a laid-out token records the logon bytes. */
  lemma ScanLogon(s: seq<byte>, c: Contents)
    requires Fits(c) && LaidOut(s, c)
    ensures Scan(s, 1) == Success(Parsed(Fields(Some(c.logon), None, None), s))
  {
    StepReads(s, 0, LogonEntry(c), Parsed(NoFields, s));
    PacProperties.ScanNext(s, 0, Parsed(NoFields, s));
  }

  /** The second iteration records the server signature and blanks it. */
  lemma StepServer(s: seq<byte>, c: Contents, f: Fields)
    requires Fits(c) && LaidOut(s, c)
    ensures Step(s, 1, Parsed(f, s)) ==
      Success(Parsed(f.(serverSignature := Some(c.server)), BlankOf(s, ServerEntry(c))))
  {
    SignatureReads(s, ServerEntry(c), c.server);
    StepReads(s, 1, ServerEntry(c), Parsed(f, s));
  }

  /** The third iteration records the KDC signature and blanks it. */
  lemma StepKdc(s: seq<byte>, c: Contents, f: Fields, z: seq<byte>)
    requires Fits(c) && LaidOut(s, c) && |z| == |s|
    ensures Step(s, 2, Parsed(f, z)) ==
      Success(Parsed(f.(kdcSignature := Some(c.kdc)), BlankOf(z, KdcEntry(c))))
  {
    SignatureReads(s, KdcEntry(c), c.kdc);
    StepReads(s, 2, KdcEntry(c), Parsed(f, z));
  }

  /** The whole loop over a laid-out token: the three fields are the
      contents, and both checksum ranges of the clone are zeroed. */
  lemma ScanLaidOut(s: seq<byte>, c: Contents)
    requires Fits(c) && LaidOut(s, c)
    ensures Scan(s, 3) == Success(Parsed(Fields(Some(c.logon), Some(c.server), Some(c.kdc)),
      BlankOf(BlankOf(s, ServerEntry(c)), KdcEntry(c))))
  {
    var f1 := Fields(Some(c.logon), None, None);
    var f2 := f1.(serverSignature := Some(c.server));
    var z1 := BlankOf(s, ServerEntry(c));
    ScanLogon(s, c);
    StepServer(s, c, f1);
    PacProperties.ScanNext(s, 1, Parsed(f1, s));
    StepKdc(s, c, f2, z1);
    PacProperties.ScanNext(s, 2, Parsed(f2, z1));
  }

  /** Zeroing both checksum ranges of an assembled token gives the token
      assembled from the blanked contents. */
  lemma BlankedClone(c: Contents)
    requires Fits(c)
    ensures Fits(Blank(c))
    ensures BlankOf(BlankOf(Assemble(c), ServerEntry(c)), KdcEntry(c)) == Assemble(Blank(c))
  {
    var t1, t2 := EncodeInt32(c.server.sigType), EncodeInt32(c.kdc.sigType);
    var S, K := c.server.checksum, c.kdc.checksum;
    BlankSameDirectory(c);
    AssembledPieces(c);
    BlankAssembledPieces(c);
    ZeroParts(Directory(c), c.logon, t1, S, t2, K);
  }

  /** An assembled token is its directory, the logon bytes, then each
      signature as its tag followed by its checksum. */
  lemma AssembledPieces(c: Contents)
    requires Fits(c)
    ensures Assemble(c) == Directory(c) + (c.logon + (EncodeInt32(c.server.sigType) + c.server.checksum)
                                         + (EncodeInt32(c.kdc.sigType) + c.kdc.checksum))
  {
    SignatureParts(c.server);
    SignatureParts(c.kdc);
  }

  /** The same pieces for the blanked contents, whose directory is the
      original one. */
  lemma BlankAssembledPieces(c: Contents)
    requires Fits(c)
    ensures Assemble(Blank(c)) == Directory(c) + (c.logon + (EncodeInt32(c.server.sigType) + Zeros(|c.server.checksum|))
                                                + (EncodeInt32(c.kdc.sigType) + Zeros(|c.kdc.checksum|)))
  {
    BlankSameDirectory(c);
    SignatureParts(Blank(c).server);
    SignatureParts(Blank(c).kdc);
  }

  /** The descriptor loop over an assembled token: the three fields are the
      contents, and the clone is the token with both checksums zeroed. */
  lemma ParseAssembled(c: Contents)
    requires Fits(c)
    ensures Fits(Blank(c))
    ensures Parse(Assemble(c)) == Success(Parsed(Fields(Some(c.logon), Some(c.server), Some(c.kdc)), Assemble(Blank(c))))
  {
    var s := Assemble(c);
    AssembledLaidOut(c);
    assert BufferCount(s) == 3 && Version(s) == PAC_VERSION;
    ScanLaidOut(s, c);
    BlankedClone(c);
  }

  /** The round trip: a token signed as a KDC signs it is accepted by the
      constructor, which returns the logon bytes and the KDC signature
      written into it and a server signature of the chosen type. */
  lemma SignedTokenAccepted(logon: seq<byte>, sigType: int, m: nat, kdc: Signature, key: Key, crypto: Crypto)
    requires Fits(Contents(logon, Signature(sigType, Zeros(m)), kdc))
    requires Sign(logon, sigType, m, kdc, key, crypto).Some?
    ensures var r := Validate(Sign(logon, sigType, m, kdc, key, crypto).value, key, crypto);
      r.Success? && r.value.logonInfo == Some(logon) && r.value.kdcSignature == Some(kdc) &&
      r.value.serverSignature.Some? && r.value.serverSignature.value.sigType == sigType
  {
    var template := Blank(Contents(logon, Signature(sigType, Zeros(m)), kdc));
    var cs := ComputeChecksum(sigType, Assemble(template), key, crypto).value;
    var c := Contents(logon, Signature(sigType, cs), kdc);
    assert Blank(c) == template;
    ParseAssembled(c);
  }
}
