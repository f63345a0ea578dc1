/** A declarative description of what the `Pac` constructor accepts and
    builds, independent of the order in which the descriptor loop works, and
    the proofs that the loop-shaped specification in PacSpec agrees with it. */
module PacProperties {
  import opened Bytes
  import opened PacSpec

  /** The directory of n descriptors fits in the token. */
  predicate DirectoryFits(data: seq<byte>, n: nat)
  {
    n == 0 || DirectoryEnd(n) <= |data|
  }

  /** A descriptor the loop body gets through: its range lies in the token
      and, for a signature, holds at least the 4-byte type tag. */
  predicate Acceptable(data: seq<byte>, d: Descriptor)
  {
    Addresses(data, d) && (IsChecksumType(d.bufferType) ==> d.size >= SIG_TYPE_LENGTH)
  }

  /** All of the first n descriptors can be read and are acceptable. */
  predicate WellFormed(data: seq<byte>, n: nat)
  {
    DirectoryFits(data, n) &&
    forall i :: 0 <= i < n ==> Acceptable(data, DescriptorAt(data, i))
  }

  /** The index of the last of the first n descriptors whose type is t. */
  function LastOfType(data: seq<byte>, n: nat, t: int): (r: Option<nat>)
    requires DirectoryFits(data, n)
    ensures r.Some? ==> r.value < n && DescriptorAt(data, r.value).bufferType == t
  {
    if n == 0 then None
    else if DescriptorAt(data, n - 1).bufferType == t then Some(n - 1)
    else LastOfType(data, n - 1, t)
  }

  /** LastOfType finds the last descriptor of type t, and finds none exactly
      when no descriptor has type t. */
  lemma {:induction false} LastOfTypeIsLast(data: seq<byte>, n: nat, t: int)
    requires DirectoryFits(data, n)
    ensures var r := LastOfType(data, n, t);
      (r.Some? ==> forall j :: r.value < j < n ==> DescriptorAt(data, j).bufferType != t) &&
      (r.None? ==> forall j :: 0 <= j < n ==> DescriptorAt(data, j).bufferType != t)
  {
    if n > 0 && DescriptorAt(data, n - 1).bufferType != t {
      LastOfTypeIsLast(data, n - 1, t);
    }
  }

  /** The sub-buffer of the last descriptor of type t, if there is one. */
  function LastBuffer(data: seq<byte>, n: nat, t: int): Option<seq<byte>>
    requires WellFormed(data, n)
  {
    match LastOfType(data, n, t)
    case None => None
    case Some(i) =>
      var d := DescriptorAt(data, i);
      Some(data[d.offset..d.offset + d.size])
  }

  /** The signature held by the last descriptor of checksum type t: the
      type tag at its offset and the bytes after the tag up to its end. */
  function LastSignature(data: seq<byte>, n: nat, t: int): Option<Signature>
    requires WellFormed(data, n) && IsChecksumType(t)
  {
    match LastOfType(data, n, t)
    case None => None
    case Some(i) =>
      var d := DescriptorAt(data, i);
      Some(SignatureAt(data, d))
  }

  /** The fields a Pac ends up with: the last descriptor of each kind wins. */
  function LastFields(data: seq<byte>, n: nat): Fields
    requires WellFormed(data, n)
  {
    Fields(LastBuffer(data, n, LOGON_INFO),
           LastSignature(data, n, SERVER_CHECKSUM),
           LastSignature(data, n, PRIVSVR_CHECKSUM))
  }

  /** The bytes the server signature is computed over: data, with zero at
      every position some signature descriptor blanks. */
  function Canonical(data: seq<byte>, n: nat): seq<byte>
  {
    seq(|data|, k requires 0 <= k < |data| => if Blanked(data, n, k) then 0 else data[k])
  }

  /** The constructor described without its loop. */
  function Reference(data: seq<byte>, key: Key, crypto: Crypto): Result<Fields>
  {
    if |data| <= HEADER_LENGTH then Failure(EmptyToken)
    else if Version(data) != PAC_VERSION then Failure(InvalidVersion)
    else
      var n := BufferCount(data);
      if !WellFormed(data, n) then Failure(MalformedToken)
      else
        match LastSignature(data, n, SERVER_CHECKSUM)
        case None => Failure(MissingSignature)
        case Some(sig) =>
          match ComputeChecksum(sig.sigType, Canonical(data, n), key, crypto)
          case Failure(e) => Failure(e)
          case Success(c) =>
            if c == sig.checksum then Success(LastFields(data, n)) else Failure(SignatureInvalid)
  }

  // ------------------------------------------------------------ the loop

  /** Once an iteration of the loop has failed, later ones change nothing. */
  lemma {:induction false} ScanFailureSticks(data: seq<byte>, i: nat, j: nat)
    requires i <= j && Scan(data, i).Failure?
    ensures Scan(data, j) == Scan(data, i)
    decreases j
  {
    if j > i {
      ScanFailureSticks(data, i, j - 1);
    }
  }

  /** The clone after the loop body for descriptor d has blanked d's range. */
  function BlankOf(c: seq<byte>, d: Descriptor): seq<byte>
    requires 0 <= d.offset && d.offset + d.size <= |c|
  {
    if IsChecksumType(d.bufferType)
    then ZeroRange(c, d.offset + SIG_TYPE_LENGTH, d.offset + d.size)
    else c
  }

  /** The fields after the loop body for descriptor d: its own kind replaced. */
  function Record(data: seq<byte>, d: Descriptor, f: Fields): Fields
    requires Acceptable(data, d)
  {
    if d.bufferType == LOGON_INFO then f.(logonInfo := Some(data[d.offset..d.offset + d.size]))
    else if d.bufferType == SERVER_CHECKSUM then f.(serverSignature := Some(SignatureAt(data, d)))
    else if d.bufferType == PRIVSVR_CHECKSUM then f.(kdcSignature := Some(SignatureAt(data, d)))
    else f
  }

  /** One more iteration of the loop from the state after i of n: either the
      state after i + 1, or an error that is also the result after all n. */
  lemma ScanAdvance(data: seq<byte>, i: nat, n: nat, st: Parsed, err: Option<Error>, next: Parsed)
    requires i < n && Scan(data, i) == Success(st)
    requires |st.checksumData| == |data| && Step(data, i, st) == Outcome(err, next)
    ensures err.None? ==> Scan(data, i + 1) == Success(next)
    ensures err.Some? ==> Scan(data, n) == Failure(err.value)
  {
    ScanNext(data, i, st);
    if err.Some? {
      ScanFailureSticks(data, i + 1, n);
    }
  }

  /** Iteration i takes the loop from the state after i iterations to the
      state after i + 1. */
  lemma ScanNext(data: seq<byte>, i: nat, st: Parsed)
    requires Scan(data, i) == Success(st)
    ensures Scan(data, i + 1) == Step(data, i, st)
  {
  }

  /** Adding descriptor n-1 blanks exactly what it blanks itself. */
  lemma CanonicalStep(data: seq<byte>, n: nat)
    requires n > 0 && HasDescriptor(data, n - 1)
    requires Acceptable(data, DescriptorAt(data, n - 1))
    ensures Canonical(data, n) == BlankOf(Canonical(data, n - 1), DescriptorAt(data, n - 1))
  {
    var d := DescriptorAt(data, n - 1);
    forall k | 0 <= k < |data|
      ensures Blanked(data, n, k) <==> Blanked(data, n - 1, k) || Blanks(d, k)
    {
      if Blanked(data, n, k) && !Blanks(d, k) {
        var i :| 0 <= i < n && HasDescriptor(data, i) && Blanks(DescriptorAt(data, i), k);
        assert i < n - 1;
      }
    }
  }

  /** Being well formed for n descriptors implies it for fewer. */
  lemma WellFormedPrefix(data: seq<byte>, n: nat, m: nat)
    requires m <= n && WellFormed(data, n)
    ensures WellFormed(data, m)
  {
    assert DirectoryFits(data, m);
    forall i | 0 <= i < m ensures Acceptable(data, DescriptorAt(data, i)) {
      assert i < n;
    }
  }

  /** The signature decoded from a checksum descriptor's sub-buffer is the
      one LastSignature reads straight out of the token. */
  lemma SignatureOfSlice(data: seq<byte>, d: Descriptor)
    requires Acceptable(data, d) && IsChecksumType(d.bufferType)
    ensures DecodeSignature(data[d.offset..d.offset + d.size]) ==
      Success(Signature(Int32At(data, d.offset), data[d.offset + SIG_TYPE_LENGTH..d.offset + d.size]))
  {
    var buf := data[d.offset..d.offset + d.size];
    Int32Frame(buf, 0, data, d.offset);
    assert buf[SIG_TYPE_LENGTH..] == data[d.offset + SIG_TYPE_LENGTH..d.offset + d.size];
  }

  /** The signature a checksum descriptor holds, read straight out of the token. */
  function SignatureAt(data: seq<byte>, d: Descriptor): Signature
    requires Acceptable(data, d) && IsChecksumType(d.bufferType)
  {
    Signature(Int32At(data, d.offset), data[d.offset + SIG_TYPE_LENGTH..d.offset + d.size])
  }

  /** Descriptor n-1 replaces the sub-buffer of its own type t and no other. */
  lemma LastBufferStep(data: seq<byte>, n: nat, t: int)
    requires n > 0 && WellFormed(data, n) && WellFormed(data, n - 1)
    ensures var d := DescriptorAt(data, n - 1);
      LastBuffer(data, n, t) ==
        if d.bufferType == t then Some(data[d.offset..d.offset + d.size]) else LastBuffer(data, n - 1, t)
  {
  }

  /** Descriptor n-1 replaces the signature of its own type t and no other. */
  lemma LastSignatureStep(data: seq<byte>, n: nat, t: int)
    requires n > 0 && WellFormed(data, n) && WellFormed(data, n - 1) && IsChecksumType(t)
    ensures var d := DescriptorAt(data, n - 1);
      LastSignature(data, n, t) ==
        if d.bufferType == t then Some(SignatureAt(data, d)) else LastSignature(data, n - 1, t)
  {
  }

  /** Descriptor n-1 replaces the field of its own kind and no other. */
  lemma LastFieldsStep(data: seq<byte>, n: nat)
    requires n > 0 && WellFormed(data, n)
    ensures WellFormed(data, n - 1)
    ensures LastFields(data, n) == Record(data, DescriptorAt(data, n - 1), LastFields(data, n - 1))
  {
    LogonStep(data, n);
    SignatureStep(data, n, SERVER_CHECKSUM);
    SignatureStep(data, n, PRIVSVR_CHECKSUM);
  }

  /** The logon-info field of LastFieldsStep. */
  lemma LogonStep(data: seq<byte>, n: nat)
    requires n > 0 && WellFormed(data, n)
    ensures WellFormed(data, n - 1) && Acceptable(data, DescriptorAt(data, n - 1))
    ensures LastBuffer(data, n, LOGON_INFO) ==
      Record(data, DescriptorAt(data, n - 1), LastFields(data, n - 1)).logonInfo
  {
    WellFormedPrefix(data, n, n - 1);
    LastBufferStep(data, n, LOGON_INFO);
  }

  /** The server- and KDC-signature fields of LastFieldsStep. */
  lemma SignatureStep(data: seq<byte>, n: nat, t: int)
    requires n > 0 && WellFormed(data, n) && (t == SERVER_CHECKSUM || t == PRIVSVR_CHECKSUM)
    ensures WellFormed(data, n - 1) && Acceptable(data, DescriptorAt(data, n - 1))
    ensures var r := Record(data, DescriptorAt(data, n - 1), LastFields(data, n - 1));
      LastSignature(data, n, t) == if t == SERVER_CHECKSUM then r.serverSignature else r.kdcSignature
  {
    WellFormedPrefix(data, n, n - 1);
    LastSignatureStep(data, n, t);
  }

  /** The loop body over an acceptable descriptor records it and blanks it. */
  lemma RouteAccepts(data: seq<byte>, d: Descriptor, st: Parsed)
    requires Acceptable(data, d) && |st.checksumData| == |data|
    ensures Route(data, d, data[d.offset..d.offset + d.size], st) ==
      Success(Parsed(Record(data, d, st.fields), BlankOf(st.checksumData, d)))
  {
    if IsChecksumType(d.bufferType) {
      SignatureOfSlice(data, d);
    }
  }

  /** Iteration n-1 over a well-formed descriptor extends the description
      of the first n-1 iterations to n. */
  lemma StepAccepts(data: seq<byte>, n: nat)
    requires n > 0 && WellFormed(data, n)
    ensures WellFormed(data, n - 1)
    ensures Step(data, n - 1, Parsed(LastFields(data, n - 1), Canonical(data, n - 1))) ==
      Success(Parsed(LastFields(data, n), Canonical(data, n)))
  {
    LastFieldsStep(data, n);
    assert HasDescriptor(data, n - 1);
    var d := DescriptorAt(data, n - 1);
    assert Acceptable(data, d);
    CanonicalStep(data, n);
    var st := Parsed(LastFields(data, n - 1), Canonical(data, n - 1));
    RouteAccepts(data, d, st);
    assert SliceOf(data, d) == Some(data[d.offset..d.offset + d.size]);
    assert Step(data, n - 1, st) == Route(data, d, data[d.offset..d.offset + d.size], st);
  }

  /** Iteration n-1 fails when the first n-1 descriptors are well formed
      and the first n are not. */
  lemma StepRejects(data: seq<byte>, n: nat, st: Parsed)
    requires n > 0 && WellFormed(data, n - 1) && !WellFormed(data, n)
    requires |st.checksumData| == |data|
    ensures Step(data, n - 1, st) == Failure(MalformedToken)
  {
    if HasDescriptor(data, n - 1) {
      assert DirectoryFits(data, n);
      var d := DescriptorAt(data, n - 1);
      assert !Acceptable(data, d) by {
        forall i | 0 <= i < n - 1 ensures Acceptable(data, DescriptorAt(data, i)) {
        }
      }
    }
  }

  /** The first n iterations of the descriptor loop succeed exactly when the
      first n descriptors are well formed, fail only with MalformedToken,
      and leave the last sub-buffer of each kind in the fields and the
      blanked clone in checksumData. */
  lemma {:induction false} ScanCharacterised(data: seq<byte>, n: nat)
    ensures Scan(data, n).Success? <==> WellFormed(data, n)
    ensures Scan(data, n).Failure? ==> Scan(data, n).error == MalformedToken
    ensures Scan(data, n).Success? ==>
      Scan(data, n).value == Parsed(LastFields(data, n), Canonical(data, n))
  {
    if n == 0 {
      assert Canonical(data, 0) == data;
    } else {
      ScanCharacterised(data, n - 1);
      if WellFormed(data, n) {
        StepAccepts(data, n);
      } else if Scan(data, n - 1).Success? {
        StepRejects(data, n, Scan(data, n - 1).value);
      }
    }
  }

  /** The header checks: a token of at most 8 bytes is an empty token, and a
      wrong version word is rejected whatever follows it, so two tokens that
      share that word fail alike before any descriptor is read. */
  lemma HeaderRejects(a: seq<byte>, b: seq<byte>, key: Key, crypto: Crypto)
    ensures |a| <= HEADER_LENGTH ==> Validate(a, key, crypto) == Failure(EmptyToken)
    ensures HEADER_LENGTH < |a| && HEADER_LENGTH < |b| && a[4..8] == b[4..8] && Version(a) != PAC_VERSION ==>
      Validate(a, key, crypto) == Failure(InvalidVersion) && Validate(b, key, crypto) == Failure(InvalidVersion)
  {
    if HEADER_LENGTH < |a| && HEADER_LENGTH < |b| && a[4..8] == b[4..8] {
      Int32Frame(a, 4, b, 4);
    }
  }

  /** A descriptor of any other type sets no field and blanks nothing. */
  lemma UnknownTypeIgnored(data: seq<byte>, i: nat, st: Parsed)
    requires |st.checksumData| == |data| && HasDescriptor(data, i)
    requires Addresses(data, DescriptorAt(data, i))
    requires DescriptorAt(data, i).bufferType !in {LOGON_INFO, SERVER_CHECKSUM, PRIVSVR_CHECKSUM}
    ensures Step(data, i, st) == Success(st)
  {
  }

  /** The constructor, as specified loop by loop, is the declarative one. */
  lemma ValidateIsReference(data: seq<byte>, key: Key, crypto: Crypto)
    ensures Validate(data, key, crypto) == Reference(data, key, crypto)
  {
    if |data| > HEADER_LENGTH && Version(data) == PAC_VERSION {
      ScanCharacterised(data, BufferCount(data));
    }
  }
}
