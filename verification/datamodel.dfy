/** The record the store keeps per key (`DataModel`: key, value, delete flag),
    its two constructors, the two ways the engine reads a record, and the
    record's byte encoding (standing in for its JSON text). */
module DataModel {
  import opened Wrappers
  import opened Bytes
  import opened Keys

  /** `value` is `None` where the Java field is null; `delete` is a Java int,
      0 for a live record and 1 for a tombstone in everything the engine writes. */
  datatype Record = Record(key: Key, value: Option<string>, delete: int32)

  /** An in-memory table (`TreeMap<String, DataModel>`): key to its latest record. */
  type Table = map<Key, Record>

  /** How an in-memory table reads a record: only `delete == 0` is live. */
  function LiveValue(r: Record): Option<string> {
    if r.delete == 0 then r.value else None
  }

  /** How a segment reads a record: only `delete == 1` is deleted. */
  function SegmentValue(r: Record): Option<string> {
    if r.delete == 1 then None else r.value
  }

  /** `new DataModel(key, value)`: a live record, `delete` left at 0. */
  function NewValue(key: Key, value: string): (r: Record)
    ensures r.key == key
    ensures LiveValue(r) == Some(value) && SegmentValue(r) == Some(value)
  {
    Record(key, Some(value), 0)
  }

  /** `new DataModel(key, delete)`: the value is left null. */
  function WithFlag(key: Key, delete: int32): (r: Record)
    ensures r.key == key && r.value == None && r.delete == delete
    ensures LiveValue(r) == None && SegmentValue(r) == None
  {
    Record(key, None, delete)
  }

  /** The tombstone `del` writes: `new DataModel(key, 1)`. */
  function Tombstone(key: Key): (r: Record)
    ensures r.key == key && r.value == None && r.delete == 1
    ensures LiveValue(r) == None && SegmentValue(r) == None
  {
    WithFlag(key, 1)
  }

  /** The flags the engine writes. */
  predicate EngineFlag(r: Record) {
    r.delete == 0 || r.delete == 1
  }

  /** The two read rules agree on every record the engine writes... */
  lemma {:induction false} ReadRulesAgree(r: Record)
    requires EngineFlag(r)
    ensures LiveValue(r) == SegmentValue(r)
  {
  }

  /** ...and on no other flag that carries a value: a record with flag 2 is
      deleted for an in-memory table but live for a segment. */
  lemma {:induction false} ReadRulesDisagreeOtherwise(r: Record)
    requires !EngineFlag(r) && r.value.Some?
    ensures LiveValue(r) == None && SegmentValue(r) == r.value
  {
  }

  // ---- byte encoding ----

  function EncodeValue(v: Option<string>): seq<byte> {
    match v
    case None => [0]
    case Some(s) => [1] + EncodeString(s)
  }

  function ParseValue(bs: seq<byte>): (r: Option<(Option<string>, seq<byte>)>)
    ensures r.Some? ==> |r.value.1| < |bs|
  {
    if |bs| == 0 then None
    else if bs[0] == 0 then Some((None, bs[1..]))
    else if bs[0] == 1 then
      match ParseString(bs[1..])
      case None => None
      case Some((s, rest)) => Some((Some(s), rest))
    else None
  }

  /** The record's key, its value (or null) and its flag. */
  function EncodeRecord(r: Record): seq<byte> {
    EncodeString(r.key) + EncodeValue(r.value) + WriteInt(r.delete)
  }

  /** Reads one record off the front of bs; returns it and the bytes after it. */
  function ParseRecord(bs: seq<byte>): (r: Option<(Record, seq<byte>)>)
    ensures r.Some? ==> |r.value.1| < |bs|
  {
    match ParseString(bs)
    case None => None
    case Some((key, bs1)) =>
      match ParseValue(bs1)
      case None => None
      case Some((value, bs2)) =>
        if |bs2| < 4 then None
        else Some((Record(key, value, ReadInt(bs2[..4])), bs2[4..]))
  }

  lemma {:induction false} ValueRoundTrip(v: Option<string>, rest: seq<byte>)
    ensures ParseValue(EncodeValue(v) + rest) == Some((v, rest))
  {
    if v.Some? {
      ConsSplit(1, EncodeString(v.value), rest);
      StringRoundTrip(v.value, rest);
    }
  }

  lemma {:induction false} RecordRoundTrip(r: Record, rest: seq<byte>)
    ensures ParseRecord(EncodeRecord(r) + rest) == Some((r, rest))
  {
    var i := WriteInt(r.delete);
    var tail := i + rest;
    var afterKey := EncodeValue(r.value) + tail;
    assert EncodeRecord(r) + rest == EncodeString(r.key) + afterKey;
    StringRoundTrip(r.key, afterKey);
    ValueRoundTrip(r.value, tail);
    assert tail[..4] == i && tail[4..] == rest;
    IntRoundTrip(r.delete);
  }
}
