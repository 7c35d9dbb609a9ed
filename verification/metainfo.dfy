/** The footer of a segment file (`MetaInfo`): five Java longs written in
    field order at the very end of the file, and read back by seeking
    backwards from the end of the file. There is no magic number, version or
    length marker: the footer is found only by its fixed size. */
module MetaInfo {
  import opened Wrappers
  import opened Bytes

  datatype MetaInfo = MetaInfo(
    partSize: int,
    dataLength: int,
    dataStart: int,
    sparseLength: int,
    sparseStart: int)
  {
    /** Every field is a value a Java long can hold. */
    predicate Fits() {
      IsLong(partSize) && IsLong(dataLength) && IsLong(dataStart)
      && IsLong(sparseLength) && IsLong(sparseStart)
    }
  }

  /** Five longs of eight bytes each. */
  const FooterSize: nat := 40

  /** `saveFile`: partSize, dataLength, dataStart, sparseLength, sparseStart,
      each as `writeLong` emits it. */
  function EncodeFooter(m: MetaInfo): (bs: seq<byte>)
    ensures |bs| == FooterSize
    ensures bs[0..8] == WriteLong(m.partSize)
    ensures bs[8..16] == WriteLong(m.dataLength)
    ensures bs[16..24] == WriteLong(m.dataStart)
    ensures bs[24..32] == WriteLong(m.sparseLength)
    ensures bs[32..40] == WriteLong(m.sparseStart)
  {
    WriteLong(m.partSize) + WriteLong(m.dataLength) + WriteLong(m.dataStart)
    + WriteLong(m.sparseLength) + WriteLong(m.sparseStart)
  }

  /** `seek(offset)` then `readLong()`. */
  function ReadLongAt(file: seq<byte>, offset: int): (r: Result<int>)
    ensures r.Ok? <==> 0 <= offset && offset + 8 <= |file|
    ensures r.Ok? ==> r.value == ReadLong(file[offset..offset + 8])
  {
    if offset < 0 then Err(NegativeSeek)
    else if offset + 8 > |file| then Err(EndOfFile)
    else Ok(ReadLong(file[offset..offset + 8]))
  }

  /** `readFromFile`: sparseStart from length - 8, sparseLength from
      length - 16, dataStart from length - 24, dataLength from length - 32 and
      partSize from length - 40, in that order. A file shorter than the
      footer makes one of the seeks negative. */
  function ReadFooter(file: seq<byte>): (r: Result<MetaInfo>)
    ensures r.Ok? <==> |file| >= FooterSize
    ensures r.Err? ==> r.fault == NegativeSeek
    ensures r.Ok? ==> r.value.Fits()
    ensures r.Ok? ==> r.value.sparseStart == ReadLong(file[|file| - 8..|file|])
    ensures r.Ok? ==> r.value.sparseLength == ReadLong(file[|file| - 16..|file| - 8])
    ensures r.Ok? ==> r.value.dataStart == ReadLong(file[|file| - 24..|file| - 16])
    ensures r.Ok? ==> r.value.dataLength == ReadLong(file[|file| - 32..|file| - 24])
    ensures r.Ok? ==> r.value.partSize == ReadLong(file[|file| - 40..|file| - 32])
  {
    var n := |file|;
    var sparseStart :- ReadLongAt(file, n - 8);
    var sparseLength :- ReadLongAt(file, n - 8 * 2);
    var dataStart :- ReadLongAt(file, n - 8 * 3);
    var dataLength :- ReadLongAt(file, n - 8 * 4);
    var partSize :- ReadLongAt(file, n - 8 * 5);
    Ok(MetaInfo(partSize, dataLength, dataStart, sparseLength, sparseStart))
  }

  /** The footer written after any bytes reads back as written: what precedes
      it in the file does not matter. */
  lemma {:induction false} FooterRoundTrip(prefix: seq<byte>, m: MetaInfo)
    requires m.Fits()
    ensures ReadFooter(prefix + EncodeFooter(m)) == Ok(m)
  {
    var e := EncodeFooter(m);
    var file := prefix + e;
    var n := |file|;
    assert file[n - 8..n] == e[32..40];
    assert file[n - 16..n - 8] == e[24..32];
    assert file[n - 24..n - 16] == e[16..24];
    assert file[n - 32..n - 24] == e[8..16];
    assert file[n - 40..n - 32] == e[0..8];
    LongRoundTrip(m.partSize);
    LongRoundTrip(m.dataLength);
    LongRoundTrip(m.dataStart);
    LongRoundTrip(m.sparseLength);
    LongRoundTrip(m.sparseStart);
  }
}
