/** The `Pac` class: its constructor reads the header and walks the buffer
    descriptors with a cursor, assigning the three fields as it meets their
    buffers and blanking signature bytes in place in a clone of the token,
    then checks the server signature. Each step is proved to follow the
    functional specification in PacSpec. */
module PacDecoder {
  import opened Bytes
  import opened PacSpec
  import PacProperties

  class Pac {
    var logonInfo: Option<seq<byte>>
    var serverSignature: Option<Signature>
    var kdcSignature: Option<Signature>

    /** A Pac none of whose buffers has been met yet. */
    constructor Blank()
      ensures State() == NoFields
    {
      logonInfo, serverSignature, kdcSignature := None, None, None;
    }

    /** The three fields as one value. */
    function State(): Fields
      reads this
    {
      Fields(logonInfo, serverSignature, kdcSignature)
    }

    function GetLogonInfo(): Option<seq<byte>>
      reads this
    {
      logonInfo
    }

    function GetServerSignature(): Option<Signature>
      reads this
    {
      serverSignature
    }

    function GetKdcSignature(): Option<Signature>
      reads this
    {
      kdcSignature
    }

    /** Zero the checksum bytes of the signature buffer at offset, that is
        positions offset+4 up to offset+size, keeping the 4-byte type tag. */
    static method ClearSignature(checksumData: array<byte>, offset: int, size: int)
      requires 0 <= offset && offset + size <= checksumData.Length
      modifies checksumData
      ensures checksumData[..] ==
        ZeroRange(old(checksumData[..]), offset + SIG_TYPE_LENGTH, offset + size)
    {
      var i := 0;
      while i < size - SIG_TYPE_LENGTH
        invariant i == 0 || 0 <= i <= size - SIG_TYPE_LENGTH
        invariant forall k :: 0 <= k < checksumData.Length ==>
          checksumData[k] ==
            if offset + SIG_TYPE_LENGTH <= k < offset + SIG_TYPE_LENGTH + i then 0 else old(checksumData[k])
      {
        checksumData[offset + SIG_TYPE_LENGTH + i] := 0;
        i := i + 1;
      }
      ghost var want := ZeroRange(old(checksumData[..]), offset + SIG_TYPE_LENGTH, offset + size);
      forall k | 0 <= k < checksumData.Length ensures checksumData[..][k] == want[k] {
        assert old(checksumData[..])[k] == old(checksumData[k]);
      }
    }

    /** One iteration of the descriptor loop: read the 16-byte record at
        cursor, copy out the sub-buffer it addresses, and route it by type,
        blanking the checksum bytes of a signature in checksumData. */
    method ReadBuffer(data: seq<byte>, checksumData: array<byte>, cursor: nat, ghost index: nat)
      returns (err: Option<Error>)
      requires cursor == DirectoryEnd(index)
      requires checksumData.Length == |data|
      modifies this, checksumData
      ensures Step(data, index, old(Parsed(State(), checksumData[..]))) == Outcome(err, Parsed(State(), checksumData[..]))
    {
      if cursor + DESCRIPTOR_LENGTH > |data| {
        return Some(MalformedToken);
      }
      var bufferType := Int32At(data, cursor);
      var bufferSize := Int32At(data, cursor + 4);
      var bufferOffset := Int64At(data, cursor + 8);
      ghost var d := Descriptor(bufferType, bufferSize, bufferOffset);
      assert d == DescriptorAt(data, index);

      if bufferSize < 0 || bufferOffset < 0 || bufferOffset + bufferSize > |data| {
        return Some(MalformedToken);
      }
      var bufferData := data[bufferOffset..bufferOffset + bufferSize];
      assert SliceOf(data, d) == Some(bufferData);

      if bufferType == LOGON_INFO {
        logonInfo := Some(bufferData);
      } else if bufferType == SERVER_CHECKSUM {
        var sig := DecodeSignature(bufferData);
        if sig.Failure? {
          return Some(sig.error);
        }
        serverSignature := Some(sig.value);
        ClearSignature(checksumData, bufferOffset, bufferSize);
      } else if bufferType == PRIVSVR_CHECKSUM {
        var sig := DecodeSignature(bufferData);
        if sig.Failure? {
          return Some(sig.error);
        }
        kdcSignature := Some(sig.value);
        ClearSignature(checksumData, bufferOffset, bufferSize);
      }
      return None;
    }

    /** Compute the checksum the server signature's type selects over the
        blanked clone and compare it with the stored one. None: they match. */
    static method CheckServerSignature(serverSig: Signature, checksumData: seq<byte>, key: Key, crypto: Crypto)
      returns (err: Option<Error>)
      ensures err.None? <==> ComputeChecksum(serverSig.sigType, checksumData, key, crypto) == Success(serverSig.checksum)
      ensures err.Some? ==>
        err.value == (if ComputeChecksum(serverSig.sigType, checksumData, key, crypto).Failure?
                      then ChecksumUnavailable else SignatureInvalid)
    {
      var checksum: seq<byte>;
      if serverSig.sigType == HMAC_SHA1_96_AES128 || serverSig.sigType == HMAC_SHA1_96_AES256 {
        var out := crypto.keyed(serverSig.sigType, checksumData, key.encoded, APP_DATA_CKSUM);
        if out.None? {
          return Some(ChecksumUnavailable);
        }
        checksum := out.value;
      } else {
        var out := crypto.mac(key, checksumData);
        if out.None? {
          return Some(ChecksumUnavailable);
        }
        checksum := out.value;
      }

      if checksum != serverSig.checksum {
        return Some(SignatureInvalid);
      }
      return None;
    }

    /** The descriptor loop: bufferCount iterations of ReadBuffer, the
        cursor advancing 16 bytes each time, stopping at the first error. */
    method ReadBuffers(data: seq<byte>, checksumData: array<byte>, bufferCount: int)
      returns (err: Option<Error>)
      requires checksumData.Length == |data|
      requires State() == NoFields && checksumData[..] == data
      modifies this, checksumData
      ensures Scan(data, if bufferCount < 0 then 0 else bufferCount) == Outcome(err, Parsed(State(), checksumData[..]))
    {
      ghost var n: nat := if bufferCount < 0 then 0 else bufferCount;
      var cursor := HEADER_LENGTH;
      var bufferIndex := 0;
      while bufferIndex < bufferCount
        invariant 0 <= bufferIndex <= n
        invariant cursor == DirectoryEnd(bufferIndex)
        invariant Scan(data, bufferIndex) == Success(Parsed(State(), checksumData[..]))
        decreases bufferCount - bufferIndex
      {
        ghost var st := Parsed(State(), checksumData[..]);
        err := ReadBuffer(data, checksumData, cursor, bufferIndex);
        PacProperties.ScanAdvance(data, bufferIndex, n, st, err, Parsed(State(), checksumData[..]));
        if err.Some? {
          return;
        }
        cursor := cursor + DESCRIPTOR_LENGTH;
        bufferIndex := bufferIndex + 1;
      }
      return None;
    }

    /** Lines up to the end of the descriptor loop of `new Pac(data, key)`:
        clone data, check the header, and walk the descriptors. On success,
        the new Pac holds the fields and checksumData the blanked clone. */
    static method ParseBuffers(data: seq<byte>) returns (r: Result<Pac>, checksumData: array<byte>)
      ensures r.Failure? <==> Parse(data).Failure?
      ensures r.Failure? ==> r.error == Parse(data).error
      ensures r.Success? ==>
        fresh(r.value) && fresh(checksumData) &&
        Parse(data) == Success(Parsed(r.value.State(), checksumData[..]))
    {
      checksumData := new byte[|data|](k requires 0 <= k < |data| => data[k]);
      assert checksumData[..] == data;

      if |data| <= HEADER_LENGTH {
        assert Parse(data) == Failure(EmptyToken);
        return Failure(EmptyToken), checksumData;
      }
      var bufferCount := Int32At(data, 0);
      var version := Int32At(data, 4);
      if version != PAC_VERSION {
        assert Parse(data) == Failure(InvalidVersion);
        return Failure(InvalidVersion), checksumData;
      }
      ghost var n := BufferCount(data);
      assert Parse(data) == Scan(data, n);

      var pac := new Pac.Blank();
      var err := pac.ReadBuffers(data, checksumData, bufferCount);
      if err.Some? {
        return Failure(err.value), checksumData;
      }
      return Success(pac), checksumData;
    }

    /** `new Pac(data, key)`: the decoded Pac, or the error the constructor
        ends with. The input array is only read. */
    static method Create(data: seq<byte>, key: Key, crypto: Crypto) returns (r: Result<Pac>)
      ensures r.Failure? <==> Validate(data, key, crypto).Failure?
      ensures r.Failure? ==> r.error == Validate(data, key, crypto).error
      ensures r.Success? ==> fresh(r.value) && Validate(data, key, crypto) == Success(r.value.State())
      ensures r.Success? ==>
        var f := Validate(data, key, crypto).value;
        r.value.GetLogonInfo() == f.logonInfo &&
        r.value.GetServerSignature() == f.serverSignature &&
        r.value.GetKdcSignature() == f.kdcSignature
    {
      var parsed, checksumData := ParseBuffers(data);
      if parsed.Failure? {
        return Failure(parsed.error);
      }
      var pac := parsed.value;
      if pac.serverSignature.None? {
        return Failure(MissingSignature);
      }
      var err := CheckServerSignature(pac.serverSignature.value, checksumData[..], key, crypto);
      if err.Some? {
        return Failure(err.value);
      }
      return Success(pac);
    }
  }
}
