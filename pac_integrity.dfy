/** What the server-signature check does and does not protect: a token that
    differs from an accepted one in a single byte past the descriptor
    directory. */
module PacIntegrity {
  import opened Bytes
  import opened PacSpec
  import opened PacProperties

  /** b is a with the byte at k replaced by a different one. */
  predicate DiffersOnlyAt(a: seq<byte>, b: seq<byte>, k: nat)
  {
    |a| == |b| && k < |a| && a[k] != b[k] &&
    forall j :: 0 <= j < |a| && j != k ==> a[j] == b[j]
  }

  /** Header and the first n descriptors read the same in a and b. */
  predicate SameDirectory(a: seq<byte>, b: seq<byte>, n: nat)
  {
    |a| == |b| && DirectoryFits(a, n) &&
    forall i :: 0 <= i < n ==> DescriptorAt(a, i) == DescriptorAt(b, i)
  }

  /** Bytes below m are shared, so every integer field below m reads the same. */
  lemma FieldsBelow(a: seq<byte>, b: seq<byte>, m: nat)
    requires |a| == |b| && HEADER_LENGTH <= m <= |a| && a[..m] == b[..m]
    ensures Version(a) == Version(b) && BufferCount(a) == BufferCount(b)
    ensures forall i: nat :: DirectoryEnd(i + 1) <= m ==> DescriptorAt(a, i) == DescriptorAt(b, i)
  {
    forall at: nat | at + 4 <= m ensures Int32At(a, at) == Int32At(b, at) {
      assert a[at..at + 4] == a[..m][at..at + 4] == b[..m][at..at + 4] == b[at..at + 4];
      Int32Frame(a, at, b, at);
    }
    forall at: nat | at + 8 <= m ensures Int64At(a, at) == Int64At(b, at) {
      assert a[at..at + 8] == a[..m][at..at + 8] == b[..m][at..at + 8] == b[at..at + 8];
      Int64Frame(a, at, b, at);
    }
  }

  /** Descriptor i of a directory a and b share. */
  lemma SharedDescriptor(a: seq<byte>, b: seq<byte>, n: nat, i: nat)
    requires SameDirectory(a, b, n) && i < n
    ensures HasDescriptor(a, i) && HasDescriptor(b, i) && DescriptorAt(a, i) == DescriptorAt(b, i)
  {
  }

  /** One unfolding of LastOfType. */
  lemma LastOfTypeUnfold(a: seq<byte>, m: nat, t: int)
    requires DirectoryFits(a, m) && m > 0
    ensures DirectoryFits(a, m - 1)
    ensures LastOfType(a, m, t) == if DescriptorAt(a, m - 1).bufferType == t then Some(m - 1) else LastOfType(a, m - 1, t)
  {
  }

  /** The last descriptor of each type among the first m depends only on
      the descriptors. */
  lemma {:induction false} LastOfTypeSameUpTo(a: seq<byte>, b: seq<byte>, n: nat, m: nat, t: int)
    requires SameDirectory(a, b, n) && m <= n
    ensures DirectoryFits(a, m) && DirectoryFits(b, m)
    ensures LastOfType(a, m, t) == LastOfType(b, m, t)
  {
    if m > 0 {
      LastOfTypeSameUpTo(a, b, n, m - 1, t);
      SharedDescriptor(a, b, n, m - 1);
      LastOfTypeUnfold(a, m, t);
      LastOfTypeUnfold(b, m, t);
    }
  }

  /** The last descriptor of each type depends only on the descriptors. */
  lemma LastOfTypeSame(a: seq<byte>, b: seq<byte>, n: nat, t: int)
    requires SameDirectory(a, b, n)
    ensures DirectoryFits(b, n) && LastOfType(a, n, t) == LastOfType(b, n, t)
  {
    LastOfTypeSameUpTo(a, b, n, n, t);
  }

  /** Well-formedness and blanking depend only on the descriptors and the length. */
  lemma DirectoryDecides(a: seq<byte>, b: seq<byte>, n: nat)
    requires SameDirectory(a, b, n)
    ensures WellFormed(a, n) <==> WellFormed(b, n)
    ensures forall j :: Blanked(a, n, j) <==> Blanked(b, n, j)
  {
    assert DirectoryFits(b, n);
    forall j ensures Blanked(a, n, j) <==> Blanked(b, n, j) {
      if Blanked(a, n, j) {
        var i :| 0 <= i < n && HasDescriptor(a, i) && Blanks(DescriptorAt(a, i), j);
        assert HasDescriptor(b, i) && Blanks(DescriptorAt(b, i), j);
      }
      if Blanked(b, n, j) {
        var i :| 0 <= i < n && HasDescriptor(b, i) && Blanks(DescriptorAt(b, i), j);
        assert HasDescriptor(a, i) && Blanks(DescriptorAt(a, i), j);
      }
    }
  }

  /** A single changed byte past the directory leaves header and directory alone. */
  lemma TamperKeepsDirectory(data: seq<byte>, tampered: seq<byte>, k: nat)
    requires DiffersOnlyAt(data, tampered, k)
    requires |data| > HEADER_LENGTH && DirectoryFits(data, BufferCount(data))
    requires k >= DirectoryEnd(BufferCount(data))
    ensures Version(tampered) == Version(data) && BufferCount(tampered) == BufferCount(data)
    ensures SameDirectory(data, tampered, BufferCount(data))
  {
    var n := BufferCount(data);
    assert data[..k] == tampered[..k];
    FieldsBelow(data, tampered, k);
  }

  /** What an accepted token satisfies: a good header, a well-formed
      directory, a server signature, and a checksum over the blanked clone
      equal to the stored one. */
  lemma Accepted(data: seq<byte>, key: Key, crypto: Crypto)
    requires Validate(data, key, crypto).Success?
    ensures |data| > HEADER_LENGTH && Version(data) == PAC_VERSION
    ensures WellFormed(data, BufferCount(data))
    ensures LastSignature(data, BufferCount(data), SERVER_CHECKSUM).Some?
    ensures var sig := LastSignature(data, BufferCount(data), SERVER_CHECKSUM).value;
      ComputeChecksum(sig.sigType, Canonical(data, BufferCount(data)), key, crypto) == Success(sig.checksum)
    ensures Validate(data, key, crypto).value == LastFields(data, BufferCount(data))
  {
    ValidateIsReference(data, key, crypto);
  }

  /** The verdict on a token with a good header, a well-formed directory and
      a server signature: the comparison of the computed checksum. */
  lemma Verdict(data: seq<byte>, key: Key, crypto: Crypto)
    requires |data| > HEADER_LENGTH && Version(data) == PAC_VERSION
    requires WellFormed(data, BufferCount(data))
    requires LastSignature(data, BufferCount(data), SERVER_CHECKSUM).Some?
    ensures var n := BufferCount(data);
      var sig := LastSignature(data, n, SERVER_CHECKSUM).value;
      Validate(data, key, crypto) ==
        match ComputeChecksum(sig.sigType, Canonical(data, n), key, crypto)
        case Failure(e) => Failure(e)
        case Success(c) => if c == sig.checksum then Success(LastFields(data, n)) else Failure(SignatureInvalid)
  {
    ValidateIsReference(data, key, crypto);
  }

  /** The position k is among the checksum bytes of the server signature
      the constructor keeps (those of the last server-checksum descriptor). */
  predicate InServerChecksum(data: seq<byte>, k: nat)
  {
    |data| > HEADER_LENGTH && DirectoryFits(data, BufferCount(data)) &&
    match LastOfType(data, BufferCount(data), SERVER_CHECKSUM)
    case None => false
    case Some(i) => Blanks(DescriptorAt(data, i), k)
  }

  /** Blanking a position depends only on the directory. */
  lemma BlankedAlike(a: seq<byte>, b: seq<byte>, n: nat, j: int)
    requires SameDirectory(a, b, n)
    ensures Blanked(a, n, j) == Blanked(b, n, j)
  {
    DirectoryDecides(a, b, n);
  }

  /** A change at a blanked position is invisible in the blanked clone,
      position by position. */
  lemma CanonicalAgrees(data: seq<byte>, tampered: seq<byte>, k: nat, n: nat)
    requires DiffersOnlyAt(data, tampered, k) && SameDirectory(data, tampered, n)
    requires Blanked(data, n, k)
    ensures forall j | 0 <= j < |data| :: Canonical(tampered, n)[j] == Canonical(data, n)[j]
  {
    var c, c' := Canonical(data, n), Canonical(tampered, n);
    forall j | 0 <= j < |data| ensures c'[j] == c[j] {
      BlankedAlike(data, tampered, n, j);
      if j != k {
        assert tampered[j] == data[j];
      }
    }
  }

  /** A change at a blanked position is invisible in the blanked clone. */
  lemma CanonicalHidesBlanked(data: seq<byte>, tampered: seq<byte>, k: nat, n: nat)
    requires DiffersOnlyAt(data, tampered, k) && SameDirectory(data, tampered, n)
    requires Blanked(data, n, k)
    ensures Canonical(tampered, n) == Canonical(data, n)
  {
    CanonicalAgrees(data, tampered, k, n);
    SameBytes(Canonical(tampered, n), Canonical(data, n));
  }

  /** A range that does not hold the changed position reads the same. */
  lemma SliceAgrees(a: seq<byte>, b: seq<byte>, k: nat, lo: nat, hi: nat)
    requires DiffersOnlyAt(a, b, k) && lo <= hi <= |a| && !(lo <= k < hi)
    ensures a[lo..hi] == b[lo..hi]
  {
    SameBytes(a[lo..hi], b[lo..hi]);
  }

  /** The signature of descriptor d in two tokens that differ at one of
      its checksum bytes: same type tag, other checksum. */
  lemma SignatureAltered(a: seq<byte>, b: seq<byte>, k: nat, d: Descriptor)
    requires DiffersOnlyAt(a, b, k)
    requires Acceptable(a, d) && Acceptable(b, d) && IsChecksumType(d.bufferType) && Blanks(d, k)
    ensures SignatureAt(b, d).sigType == SignatureAt(a, d).sigType
    ensures SignatureAt(b, d).checksum != SignatureAt(a, d).checksum
  {
    SliceAgrees(a, b, k, d.offset, d.offset + SIG_TYPE_LENGTH);
    Int32Frame(a, d.offset, b, d.offset);
    var j := k - d.offset - SIG_TYPE_LENGTH;
    assert SignatureAt(a, d).checksum[j] == a[k];
    assert SignatureAt(b, d).checksum[j] == b[k];
  }

  /** The signature of descriptor d in two tokens that differ outside its
      buffer is the same. */
  lemma SignatureKept(a: seq<byte>, b: seq<byte>, k: nat, d: Descriptor)
    requires DiffersOnlyAt(a, b, k)
    requires Acceptable(a, d) && Acceptable(b, d) && IsChecksumType(d.bufferType)
    requires !(d.offset <= k < d.offset + d.size)
    ensures SignatureAt(b, d) == SignatureAt(a, d)
  {
    SliceAgrees(a, b, k, d.offset, d.offset + SIG_TYPE_LENGTH);
    Int32Frame(a, d.offset, b, d.offset);
    SliceAgrees(a, b, k, d.offset + SIG_TYPE_LENGTH, d.offset + d.size);
  }

  /** The kept server signature of a token that differs from data only
      inside that signature's checksum bytes: same type tag, other checksum. */
  lemma ServerSignatureAltered(data: seq<byte>, tampered: seq<byte>, k: nat, n: nat)
    requires DiffersOnlyAt(data, tampered, k) && SameDirectory(data, tampered, n)
    requires WellFormed(data, n) && WellFormed(tampered, n)
    requires LastOfType(data, n, SERVER_CHECKSUM).Some?
    requires Blanks(DescriptorAt(data, LastOfType(data, n, SERVER_CHECKSUM).value), k)
    ensures LastSignature(tampered, n, SERVER_CHECKSUM).Some?
    ensures LastSignature(tampered, n, SERVER_CHECKSUM).value.sigType ==
      LastSignature(data, n, SERVER_CHECKSUM).value.sigType
    ensures LastSignature(tampered, n, SERVER_CHECKSUM).value.checksum !=
      LastSignature(data, n, SERVER_CHECKSUM).value.checksum
  {
    LastOfTypeSame(data, tampered, n, SERVER_CHECKSUM);
    var i := LastOfType(data, n, SERVER_CHECKSUM).value;
    var d := DescriptorAt(data, i);
    assert DescriptorAt(tampered, i) == d;
    SignatureAltered(data, tampered, k, d);
  }

  /** The kept server signature of a token that differs from data only
      outside that signature's buffer is the same signature. */
  lemma ServerSignatureKept(data: seq<byte>, tampered: seq<byte>, k: nat, n: nat)
    requires DiffersOnlyAt(data, tampered, k) && SameDirectory(data, tampered, n)
    requires WellFormed(data, n) && WellFormed(tampered, n)
    requires match LastOfType(data, n, SERVER_CHECKSUM)
      case None => true
      case Some(i) => !(DescriptorAt(data, i).offset <= k < DescriptorAt(data, i).offset + DescriptorAt(data, i).size)
    ensures LastSignature(tampered, n, SERVER_CHECKSUM) == LastSignature(data, n, SERVER_CHECKSUM)
  {
    LastOfTypeSame(data, tampered, n, SERVER_CHECKSUM);
    if LastOfType(data, n, SERVER_CHECKSUM).Some? {
      var i := LastOfType(data, n, SERVER_CHECKSUM).value;
      var d := DescriptorAt(data, i);
      assert DescriptorAt(tampered, i) == d;
      SignatureKept(data, tampered, k, d);
    }
  }

  /** Changing any byte of the stored server checksum of an accepted token
      makes the constructor reject it with SignatureInvalid: the blanked
      clone, and so the computed checksum, stay the same while the stored
      checksum changes. */
  lemma ServerChecksumTamperRejected(data: seq<byte>, tampered: seq<byte>, k: nat, key: Key, crypto: Crypto)
    requires Validate(data, key, crypto).Success?
    requires DiffersOnlyAt(data, tampered, k)
    requires InServerChecksum(data, k)
    requires k >= DirectoryEnd(BufferCount(data))
    ensures Validate(tampered, key, crypto) == Failure(SignatureInvalid)
  {
    Accepted(data, key, crypto);
    var n := BufferCount(data);
    TamperKeepsDirectory(data, tampered, k);
    DirectoryDecides(data, tampered, n);
    assert Blanked(data, n, k) by {
      var i := LastOfType(data, n, SERVER_CHECKSUM).value;
      assert HasDescriptor(data, i);
    }
    CanonicalHidesBlanked(data, tampered, k, n);
    ServerSignatureAltered(data, tampered, k, n);
    Verdict(tampered, key, crypto);
  }

  /** Changing a byte that no signature blanks, past the directory, changes
      the bytes the server checksum is computed over at that position:
      logon information and unknown buffers are covered by the checksum. */
  lemma TamperOutsideSignaturesChangesChecksumInput(data: seq<byte>, tampered: seq<byte>, k: nat)
    requires Parse(data).Success?
    requires DiffersOnlyAt(data, tampered, k)
    requires k >= DirectoryEnd(BufferCount(data))
    requires !Blanked(data, BufferCount(data), k)
    ensures Parse(tampered).Success?
    ensures Parse(tampered).value.checksumData[k] == tampered[k]
    ensures Parse(data).value.checksumData[k] == data[k]
    ensures Parse(tampered).value.checksumData[k] != Parse(data).value.checksumData[k]
  {
    var n := BufferCount(data);
    ScanCharacterised(data, n);
    TamperKeepsDirectory(data, tampered, k);
    DirectoryDecides(data, tampered, n);
    ScanCharacterised(tampered, n);
  }

  /** Nothing checks the KDC signature: changing a byte that some signature
      descriptor blanks but that lies outside the kept server signature's
      buffer leaves an accepted token accepted. */
  lemma BlankedBytesOutsideServerSignatureUnchecked(
    data: seq<byte>, tampered: seq<byte>, k: nat, key: Key, crypto: Crypto)
    requires Validate(data, key, crypto).Success?
    requires DiffersOnlyAt(data, tampered, k)
    requires k >= DirectoryEnd(BufferCount(data))
    requires Blanked(data, BufferCount(data), k)
    requires match LastOfType(data, BufferCount(data), SERVER_CHECKSUM)
      case None => true
      case Some(i) => !(DescriptorAt(data, i).offset <= k < DescriptorAt(data, i).offset + DescriptorAt(data, i).size)
    ensures Validate(tampered, key, crypto).Success?
    ensures Validate(tampered, key, crypto).value.serverSignature == Validate(data, key, crypto).value.serverSignature
  {
    Accepted(data, key, crypto);
    var n := BufferCount(data);
    TamperKeepsDirectory(data, tampered, k);
    DirectoryDecides(data, tampered, n);
    CanonicalHidesBlanked(data, tampered, k, n);
    ServerSignatureKept(data, tampered, k, n);
    Verdict(tampered, key, crypto);
  }

  /** Changing a byte the server checksum covers (one no signature blanks
      and outside the kept server signature's buffer, such as a logon-info
      byte) makes an accepted token rejected, provided the checksum of the
      tampered token's clone differs from that of the original clone:
      either the checksum no longer matches, or the primitive fails on the
      new input. The hypothesis is about this one pair of clones, which
      differ at k (`TamperOutsideSignaturesChangesChecksumInput`); whether
      a real checksum separates them is a property of the cryptography, not
      of this code. */
  lemma CoveredTamperRejected(data: seq<byte>, tampered: seq<byte>, k: nat, key: Key, crypto: Crypto)
    requires Validate(data, key, crypto).Success?
    requires DiffersOnlyAt(data, tampered, k)
    requires k >= DirectoryEnd(BufferCount(data))
    requires !Blanked(data, BufferCount(data), k)
    requires match LastOfType(data, BufferCount(data), SERVER_CHECKSUM)
      case None => true
      case Some(i) => !(DescriptorAt(data, i).offset <= k < DescriptorAt(data, i).offset + DescriptorAt(data, i).size)
    requires Validate(data, key, crypto).value.serverSignature.Some?
    requires ComputeChecksum(Validate(data, key, crypto).value.serverSignature.value.sigType,
                             Canonical(tampered, BufferCount(data)), key, crypto) !=
             ComputeChecksum(Validate(data, key, crypto).value.serverSignature.value.sigType,
                             Canonical(data, BufferCount(data)), key, crypto)
    ensures Validate(tampered, key, crypto) == Failure(SignatureInvalid) ||
            Validate(tampered, key, crypto) == Failure(ChecksumUnavailable)
  {
    Accepted(data, key, crypto);
    var n := BufferCount(data);
    TamperKeepsDirectory(data, tampered, k);
    DirectoryDecides(data, tampered, n);
    ServerSignatureKept(data, tampered, k, n);
    Verdict(tampered, key, crypto);
  }
}
