/** The write-ahead log. `set` and `del` append each record as a frame: the
    payload's length written with `writeInt`, then the payload. On start-up
    `restoreByWal` replays the frames in order into the in-memory table, so
    the last record written for a key is the one kept. */
module Wal {
  import opened Wrappers
  import opened Bytes
  import opened Keys
  import opened DataModel

  /** The record under a key, or null. */
  function Find(t: Table, k: Key): (r: Option<Record>)
    ensures r.Some? <==> k in t
    ensures r.Some? ==> r.value == t[k]
  {
    if k in t then Some(t[k]) else None
  }

  // ---- frames ----

  /** A record whose payload length fits in the `int` written before it. */
  predicate Framable(r: Record) {
    |EncodeRecord(r)| < 0x8000_0000
  }

  /** The bytes one `set` or `del` appends to the log: four bytes that read
      back as the payload's length whenever it fits in an `int`, then the
      payload. */
  function Frame(r: Record): (bs: seq<byte>)
    ensures |bs| == 4 + |EncodeRecord(r)|
    ensures bs[4..] == EncodeRecord(r)
    ensures IsInt(|EncodeRecord(r)|) ==> ReadInt(bs[..4]) == |EncodeRecord(r)|
  {
    var payload := EncodeRecord(r);
    if IsInt(|payload|) then IntRoundTrip(|payload|); WriteInt(|payload|) + payload
    else WriteInt(|payload|) + payload
  }

  /** The log a sequence of writes leaves, oldest first. */
  function Frames(rs: seq<Record>): (bs: seq<byte>)
    decreases |rs|
  {
    if |rs| == 0 then [] else Frame(rs[0]) + Frames(rs[1..])
  }

  /** Writing one more record appends exactly its frame. */
  lemma {:induction false} FramesSnoc(rs: seq<Record>, r: Record)
    ensures Frames(rs + [r]) == Frames(rs) + Frame(r)
    ensures |Frames(rs + [r])| == |Frames(rs)| + 4 + |EncodeRecord(r)|
    decreases |rs|
  {
    if |rs| == 0 {
      assert Frames([r][1..]) == [];
    } else {
      assert (rs + [r])[0] == rs[0] && (rs + [r])[1..] == rs[1..] + [r];
      FramesSnoc(rs[1..], r);
      assert Frames(rs + [r]) == Frame(rs[0]) + (Frames(rs[1..]) + Frame(r));
    }
  }

  // ---- restoreByWal ----

  /** What gson makes of one payload: an empty text gives null, anything else
      must be exactly one record. */
  function DecodePayload(bs: seq<byte>): (r: Result<Option<Record>>)
    ensures |bs| == 0 ==> r == Ok(None)
  {
    if |bs| == 0 then Ok(None)
    else match ParseRecord(bs)
      case Some((rec, rest)) => if |rest| == 0 then Ok(Some(rec)) else Err(Malformed)
      case None => Err(Malformed)
  }

  /** The payload of a record reads back as that record. */
  lemma {:induction false} PayloadRoundTrip(r: Record)
    ensures DecodePayload(EncodeRecord(r)) == Ok(Some(r))
  {
    RecordRoundTrip(r, []);
    assert EncodeRecord(r) + [] == EncodeRecord(r);
    assert |EncodeString(r.key)| > 0;
  }

  /** The replay loop on what is left of the log: read a length; a negative
      one fails `new byte[length]`, a frame running past the end of the log
      cannot be parsed; otherwise put the record it holds, if any, and go on
      4 + length bytes further. */
  function Replay(log: seq<byte>, cur: Table): (r: Result<Table>)
    ensures |log| == 0 ==> r == Ok(cur)
    ensures r.Ok? ==> cur.Keys <= r.value.Keys
    ensures r.Ok? ==> forall k :: k in r.value ==> r.value[k].key == k || (k in cur && r.value[k] == cur[k])
    decreases |log|
  {
    if |log| == 0 then Ok(cur)
    else if |log| < 4 then Err(EndOfFile)
    else
      var length := ReadInt(log[..4]);
      if length < 0 then Err(NegativeArraySize)
      else if |log| - 4 < length then Err(Malformed)
      else
        var found :- DecodePayload(log[4..4 + length]);
        Replay(log[4 + length..], if found.Some? then cur[found.value.key := found.value] else cur)
  }

  /** Putting records into a table in order. */
  function PutAll(cur: Table, rs: seq<Record>): Table
    decreases |rs|
  {
    if |rs| == 0 then cur else PutAll(cur[rs[0].key := rs[0]], rs[1..])
  }

  /** The last record written for a key, looking back from the newest. */
  function LastWrite(rs: seq<Record>, k: Key): (r: Option<Record>)
    ensures r.Some? ==> r.value.key == k
    decreases |rs|
  {
    if |rs| == 0 then None
    else if rs[|rs| - 1].key == k then Some(rs[|rs| - 1])
    else LastWrite(rs[..|rs| - 1], k)
  }

  /** Putting one more record is one more `put` on the result. */
  lemma {:induction false} PutAllSnoc(cur: Table, rs: seq<Record>, r: Record)
    ensures PutAll(cur, rs + [r]) == PutAll(cur, rs)[r.key := r]
    decreases |rs|
  {
    if |rs| == 0 {
      assert PutAll(cur[r.key := r], []) == cur[r.key := r];
    } else {
      assert (rs + [r])[1..] == rs[1..] + [r];
      PutAllSnoc(cur[rs[0].key := rs[0]], rs[1..], r);
    }
  }

  /** Last write wins: after the puts, a key holds the last record written
      for it, or what the table held before when no record names it. */
  lemma {:induction false} PutAllLastWins(cur: Table, rs: seq<Record>, k: Key)
    ensures Find(PutAll(cur, rs), k) == if LastWrite(rs, k).Some? then LastWrite(rs, k) else Find(cur, k)
    decreases |rs|
  {
    if |rs| > 0 {
      var n := |rs| - 1;
      assert rs == rs[..n] + [rs[n]];
      PutAllSnoc(cur, rs[..n], rs[n]);
      PutAllLastWins(cur, rs[..n], k);
    } else {
      assert PutAll(cur, rs) == cur;
    }
  }

  /** The frame of a record, then the rest of the log. */
  lemma {:induction false} FrameSplit(r: Record, tail: seq<byte>)
    requires Framable(r)
    ensures var log := Frame(r) + tail;
      && |log| >= 4 && ReadInt(log[..4]) == |EncodeRecord(r)|
      && log[4..4 + |EncodeRecord(r)|] == EncodeRecord(r)
      && log[4 + |EncodeRecord(r)|..] == tail
  {
    var p := EncodeRecord(r);
    var log := Frame(r) + tail;
    assert log[..4] == WriteInt(|p|);
    assert log[4..4 + |p|] == p;
    assert log[4 + |p|..] == tail;
    IntRoundTrip(|p|);
  }

  /** Replaying the log a sequence of writes left puts their records in
      order: frames are consumed 4 + length bytes at a time. */
  lemma {:induction false} ReplayFrames(rs: seq<Record>, cur: Table)
    requires forall i :: 0 <= i < |rs| ==> Framable(rs[i])
    ensures Replay(Frames(rs), cur) == Ok(PutAll(cur, rs))
    decreases |rs|
  {
    if |rs| > 0 {
      var r := rs[0];
      FrameSplit(r, Frames(rs[1..]));
      PayloadRoundTrip(r);
      ReplayFrames(rs[1..], cur[r.key := r]);
    }
  }

  /** Rebuilding the table from the log of a sequence of writes: every key
      holds the last record written for it, and no other key is present. */
  lemma {:induction false} RestoreLastWins(rs: seq<Record>, k: Key)
    requires forall i :: 0 <= i < |rs| ==> Framable(rs[i])
    ensures Replay(Frames(rs), map[]).Ok?
    ensures Find(Replay(Frames(rs), map[]).value, k) == LastWrite(rs, k)
  {
    ReplayFrames(rs, map[]);
    PutAllLastWins(map[], rs, k);
  }

  /** A log whose first length is negative fails at `new byte[length]`. */
  lemma {:induction false} ReplayNegativeLength(log: seq<byte>, cur: Table)
    requires |log| >= 4 && ReadInt(log[..4]) < 0
    ensures Replay(log, cur) == Err(NegativeArraySize)
  {
  }

  /** One round of the replay, read at offset `off` of the whole log. */
  lemma {:induction false} ReplayAt(wal: seq<byte>, off: nat, cur: Table)
    requires off < |wal|
    ensures |wal| - off < 4 ==> Replay(wal[off..], cur) == Err(EndOfFile)
    ensures |wal| - off >= 4 ==>
      var length := ReadInt(wal[off..off + 4]);
      && (length < 0 ==> Replay(wal[off..], cur) == Err(NegativeArraySize))
      && (0 <= length && |wal| - off - 4 < length ==> Replay(wal[off..], cur) == Err(Malformed))
      && (0 <= length <= |wal| - off - 4 ==>
            var found := DecodePayload(wal[off + 4..off + 4 + length]);
            && (found.Err? ==> Replay(wal[off..], cur) == Err(found.fault))
            && (found.Ok? ==> Replay(wal[off..], cur) == Replay(wal[off + length + 4..],
                  if found.value.Some? then cur[found.value.value.key := found.value.value] else cur)))
  {
    var log := wal[off..];
    if |log| >= 4 {
      assert log[..4] == wal[off..off + 4];
      var length := ReadInt(log[..4]);
      if 0 <= length <= |log| - 4 {
        assert log[4..4 + length] == wal[off + 4..off + 4 + length];
        assert log[4 + length..] == wal[off + length + 4..];
      }
    }
  }

  /** `restoreByWal` as the loop it is: `off` walks the log frame by frame. */
  method RestoreByWal(wal: seq<byte>) returns (r: Result<Table>)
    ensures r == Replay(wal, map[])
  {
    var cur: Table := map[];
    var off := 0;
    while off < |wal|
      invariant 0 <= off <= |wal|
      invariant Replay(wal[off..], cur) == Replay(wal, map[])
      decreases |wal| - off
    {
      ReplayAt(wal, off, cur);
      if |wal| - off < 4 {
        return Err(EndOfFile);
      }
      var length := ReadInt(wal[off..off + 4]);
      if length < 0 {
        return Err(NegativeArraySize);
      }
      if |wal| - off - 4 < length {
        return Err(Malformed);
      }
      var found := DecodePayload(wal[off + 4..off + 4 + length]);
      if found.Err? {
        return Err(found.fault);
      }
      if found.value.Some? {
        cur := cur[found.value.value.key := found.value.value];
      }
      off := off + length + 4;
    }
    return Ok(cur);
  }
}
