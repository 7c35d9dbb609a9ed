/** The byte layout of the two serialised structures inside a segment file:
    a partition (a JSON object mapping each key to its record) and the sparse
    index (a JSON object mapping a partition's first key to its Position).
    Both are written as lists: a 1 byte before each element, a 0 byte at the
    end. */
module SegmentCodec {
  import opened Wrappers
  import opened Bytes
  import opened Keys
  import opened DataModel
  import opened Position

  const ListMore: byte := 1
  const ListEnd: byte := 0

  /** Regrouping [x] + a + b + c + d to the right. */
  lemma {:induction false} ConsAssoc<T>(x: T, a: seq<T>, b: seq<T>, c: seq<T>, d: seq<T>)
    ensures ([x] + a + b + c + d)[0] == x
    ensures ([x] + a + b + c + d)[1..] == a + (b + (c + d))
  {
    assert [x] + a + b + c + d == [x] + (a + (b + (c + d)));
  }

  // ---- partitions ----

  function EncodePartition(part: seq<(Key, Record)>): seq<byte> {
    if |part| == 0 then [ListEnd]
    else [ListMore] + EncodeString(part[0].0) + EncodeRecord(part[0].1) + EncodePartition(part[1..])
  }

  function ParsePartition(bs: seq<byte>): (r: Option<(seq<(Key, Record)>, seq<byte>)>)
    ensures r.Some? ==> |r.value.1| < |bs|
    decreases |bs|
  {
    if |bs| == 0 then None
    else if bs[0] == ListEnd then Some(([], bs[1..]))
    else if bs[0] != ListMore then None
    else match ParseString(bs[1..])
      case None => None
      case Some((key, bs1)) =>
        match ParseRecord(bs1)
        case None => None
        case Some((rec, bs2)) =>
          match ParsePartition(bs2)
          case None => None
          case Some((tail, rest)) => Some(([(key, rec)] + tail, rest))
  }

  /** One element of the list: the marker, the key, the record, then the rest. */
  lemma {:induction false} ParsePartitionCons(bs: seq<byte>, key: Key, rec: Record, tail: seq<(Key, Record)>,
                           bs1: seq<byte>, bs2: seq<byte>, rest: seq<byte>)
    requires |bs| > 0 && bs[0] == ListMore
    requires ParseString(bs[1..]) == Some((key, bs1))
    requires ParseRecord(bs1) == Some((rec, bs2))
    requires ParsePartition(bs2) == Some((tail, rest))
    ensures ParsePartition(bs) == Some(([(key, rec)] + tail, rest))
  {
  }

  /** The bytes of a non-empty partition, split at its first element. */
  lemma {:induction false} EncodePartitionCons(part: seq<(Key, Record)>, rest: seq<byte>)
    requires |part| > 0
    ensures (EncodePartition(part) + rest)[0] == ListMore
    ensures (EncodePartition(part) + rest)[1..]
         == EncodeString(part[0].0) + (EncodeRecord(part[0].1) + (EncodePartition(part[1..]) + rest))
  {
    ConsAssoc(ListMore, EncodeString(part[0].0), EncodeRecord(part[0].1), EncodePartition(part[1..]), rest);
  }

  lemma {:induction false} PartitionRoundTrip(part: seq<(Key, Record)>, rest: seq<byte>)
    ensures ParsePartition(EncodePartition(part) + rest) == Some((part, rest))
    decreases |part|
  {
    if |part| > 0 {
      var key, rec := part[0].0, part[0].1;
      var tail := EncodePartition(part[1..]) + rest;
      var afterKey := EncodeRecord(rec) + tail;
      EncodePartitionCons(part, rest);
      StringRoundTrip(key, afterKey);
      RecordRoundTrip(rec, tail);
      PartitionRoundTrip(part[1..], rest);
      ParsePartitionCons(EncodePartition(part) + rest, key, rec, part[1..], afterKey, tail, rest);
      assert [(key, rec)] + part[1..] == part;
    }
  }

  /** Parses a whole partition blob into its key-to-record object; a later
      duplicate key replaces an earlier one, as in a JSON object. */
  function DecodePartition(bs: seq<byte>): Result<Table> {
    match ParsePartition(bs)
    case Some((part, rest)) => if |rest| == 0 then Ok(ToMap(part)) else Err(Malformed)
    case None => Err(Malformed)
  }

  lemma {:induction false} DecodeEncodedPartition(part: seq<(Key, Record)>)
    ensures DecodePartition(EncodePartition(part)) == Ok(ToMap(part))
  {
    PartitionRoundTrip(part, []);
    assert EncodePartition(part) + [] == EncodePartition(part);
  }

  // ---- sparse index ----

  function EncodeIndexEntries(es: seq<(Key, Position)>): seq<byte> {
    if |es| == 0 then [ListEnd]
    else [ListMore] + EncodeString(es[0].0) + WriteLong(es[0].1.start) + WriteLong(es[0].1.length)
         + EncodeIndexEntries(es[1..])
  }

  function ParseIndexEntries(bs: seq<byte>): (r: Option<(seq<(Key, Position)>, seq<byte>)>)
    ensures r.Some? ==> |r.value.1| < |bs|
    decreases |bs|
  {
    if |bs| == 0 then None
    else if bs[0] == ListEnd then Some(([], bs[1..]))
    else if bs[0] != ListMore then None
    else match ParseString(bs[1..])
      case None => None
      case Some((key, bs1)) =>
        if |bs1| < 16 then None
        else
          var p := Position(ReadLong(bs1[..8]), ReadLong(bs1[8..16]));
          match ParseIndexEntries(bs1[16..])
          case None => None
          case Some((tail, rest)) => Some(([(key, p)] + tail, rest))
  }

  /** Positions a Java long can hold. */
  predicate PositionsFit(es: seq<(Key, Position)>) {
    forall i :: 0 <= i < |es| ==> IsLong(es[i].1.start) && IsLong(es[i].1.length)
  }

  /** One entry of the list: the marker, the key, start and length, then the rest. */
  lemma {:induction false} ParseIndexEntriesCons(bs: seq<byte>, key: Key, p: Position,
                                                 tail: seq<(Key, Position)>, bs1: seq<byte>, rest: seq<byte>)
    requires |bs| > 0 && bs[0] == ListMore
    requires ParseString(bs[1..]) == Some((key, bs1))
    requires |bs1| >= 16 && ReadLong(bs1[..8]) == p.start && ReadLong(bs1[8..16]) == p.length
    requires ParseIndexEntries(bs1[16..]) == Some((tail, rest))
    ensures ParseIndexEntries(bs) == Some(([(key, p)] + tail, rest))
  {
  }

  /** The bytes of a non-empty entry list, split after the marker. */
  lemma {:induction false} EncodeIndexEntriesCons(es: seq<(Key, Position)>, rest: seq<byte>)
    requires |es| > 0
    ensures (EncodeIndexEntries(es) + rest)[0] == ListMore
    ensures (EncodeIndexEntries(es) + rest)[1..]
         == EncodeString(es[0].0) + ((WriteLong(es[0].1.start) + WriteLong(es[0].1.length)) + (EncodeIndexEntries(es[1..]) + rest))
  {
    var s := WriteLong(es[0].1.start);
    var l := WriteLong(es[0].1.length);
    assert EncodeIndexEntries(es) == [ListMore] + EncodeString(es[0].0) + (s + l) + EncodeIndexEntries(es[1..]);
    ConsAssoc(ListMore, EncodeString(es[0].0), s + l, EncodeIndexEntries(es[1..]), rest);
  }

  /** Start and length, then whatever follows. */
  lemma {:induction false} TwoLongs(start: int, length: int, tail: seq<byte>)
    requires IsLong(start) && IsLong(length)
    ensures |WriteLong(start) + WriteLong(length) + tail| >= 16
    ensures ReadLong((WriteLong(start) + WriteLong(length) + tail)[..8]) == start
    ensures ReadLong((WriteLong(start) + WriteLong(length) + tail)[8..16]) == length
    ensures (WriteLong(start) + WriteLong(length) + tail)[16..] == tail
  {
    var bs := WriteLong(start) + WriteLong(length) + tail;
    assert bs[..8] == WriteLong(start) && bs[8..16] == WriteLong(length) && bs[16..] == tail;
    LongRoundTrip(start);
    LongRoundTrip(length);
  }

  lemma {:induction false} IndexEntriesRoundTrip(es: seq<(Key, Position)>, rest: seq<byte>)
    requires PositionsFit(es)
    ensures ParseIndexEntries(EncodeIndexEntries(es) + rest) == Some((es, rest))
    decreases |es|
  {
    if |es| > 0 {
      var tail := EncodeIndexEntries(es[1..]) + rest;
      var afterKey := WriteLong(es[0].1.start) + WriteLong(es[0].1.length) + tail;
      EncodeIndexEntriesCons(es, rest);
      StringRoundTrip(es[0].0, afterKey);
      TwoLongs(es[0].1.start, es[0].1.length, tail);
      IndexEntriesRoundTrip(es[1..], rest);
      ParseIndexEntriesCons(EncodeIndexEntries(es) + rest, es[0].0, es[0].1, es[1..], afterKey, rest);
      assert [es[0]] + es[1..] == es;
    }
  }

  /** The sparse index TreeMap, written in ascending key order. */
  function EncodeIndex(index: map<Key, Position>): seq<byte> {
    EncodeIndexEntries(Entries(index))
  }

  /** Parses a sparse index blob back into a TreeMap. */
  function DecodeIndex(bs: seq<byte>): Result<map<Key, Position>> {
    match ParseIndexEntries(bs)
    case Some((es, rest)) => if |rest| == 0 then Ok(ToMap(es)) else Err(Malformed)
    case None => Err(Malformed)
  }

  /** A sparse index whose positions fit in longs survives the trip through bytes. */
  lemma {:induction false} IndexRoundTrip(index: map<Key, Position>)
    requires forall k :: k in index ==> IsLong(index[k].start) && IsLong(index[k].length)
    ensures DecodeIndex(EncodeIndex(index)) == Ok(index)
  {
    var es := Entries(index);
    IndexEntriesRoundTrip(es, []);
    assert EncodeIndexEntries(es) + [] == EncodeIndexEntries(es);
    ToMapOfEntries(index);
  }
}
