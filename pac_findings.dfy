/** The sub-buffer copy as the constructor writes it: the 64-bit offset is
    cast to a Java `int` before the copy, so an offset of 2^32 + j reads the
    bytes at j. The model everywhere else uses PacSpec.SliceOf, which refuses
    every offset that does not itself address the range. */
module PacFindings {
  import opened Bytes
  import opened PacSpec

  /** Java's narrowing `(int)` cast: keep the low 32 bits, read them signed. */
  function JavaIntCast(x: int): (r: int)
    ensures IsInt32(r)
    ensures (r - x) % (2 * INT32_HALF) == 0
  {
    ToSigned(x % (2 * INT32_HALF), INT32_HALF)
  }

  /** The cast changes nothing for a value that already fits in an int. */
  lemma JavaIntCastIdentity(x: int)
    requires IsInt32(x)
    ensures JavaIntCast(x) == x
  {
    if x < 0 {
      assert x % (2 * INT32_HALF) == x + 2 * INT32_HALF;
    }
  }

  /** `new byte[size]` followed by `System.arraycopy(data, (int) offset, ...)`:
      the copy, or None where the allocation or the copy throws. */
  function SliceAsWritten(data: seq<byte>, d: Descriptor): (r: Option<seq<byte>>)
    ensures r.Some? <==>
      0 <= d.size && 0 <= JavaIntCast(d.offset) && JavaIntCast(d.offset) + d.size <= |data|
    ensures r.Some? ==> |r.value| == d.size
    ensures r.Some? ==> forall j :: 0 <= j < d.size ==> r.value[j] == data[JavaIntCast(d.offset) + j]
  {
    var at := JavaIntCast(d.offset);
    if 0 <= d.size && 0 <= at && at + d.size <= |data| then Some(data[at..at + d.size]) else None
  }

  /** Wherever the checked slice succeeds on a token Java can hold (fewer
      than 2^31 bytes), the copy as written yields the same bytes: the
      correction only refuses descriptors, it never reads other bytes. */
  lemma SliceOfRefinesAsWritten(data: seq<byte>, d: Descriptor)
    requires |data| < INT32_HALF
    requires SliceOf(data, d).Some?
    ensures SliceAsWritten(data, d) == SliceOf(data, d)
  {
    JavaIntCastIdentity(d.offset);
  }

  /** The discrepancy: a logon-info descriptor whose offset field reads
      0x1_0000_0008 and whose size is 4 lies far outside any token, yet the
      copy as written hands out bytes 8..12 (the first descriptor record),
      while the checked slice rejects it. */
  lemma TruncatedOffsetAliases(data: seq<byte>)
    requires 12 <= |data| < INT32_HALF
    ensures var d := Descriptor(LOGON_INFO, 4, 0x1_0000_0008);
      IsInt64(d.offset) &&
      SliceAsWritten(data, d) == Some(data[8..12]) &&
      SliceOf(data, d).None?
  {
    var d := Descriptor(LOGON_INFO, 4, 0x1_0000_0008);
    assert 0x1_0000_0008 % (2 * INT32_HALF) == 8;
    assert JavaIntCast(d.offset) == 8;
  }
}
