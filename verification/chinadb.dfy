/** The store itself (`ChinaDB`): the table being written, the table last
    frozen for flushing, the segments newest first, and the write-ahead log.
    `set` and `del` log a record, put it and, once the table holds
    `tableSize` keys, swap it out and flush it to a new segment; `get` looks
    in the two tables and then in the segments, newest first. The flush is
    modelled as finished when the write returns. */
module ChinaDB {
  import opened Wrappers
  import opened Bytes
  import opened Keys
  import opened DataModel
  import opened SsTable
  import opened SegmentLookup
  import opened Wal

  /** `curIndex`, `immutableIndex` (null until the first swap), `ssTableList`,
      the bytes of the current log file, and the two sizes the store was
      opened with. */
  datatype Db = Db(
    cur: Table,
    immutable: Option<Table>,
    segments: seq<SsTable>,
    wal: seq<byte>,
    tableSize: int,
    partitionSize: int)

  /** A store opened over an empty data directory. */
  function Open(tableSize: int, partitionSize: int): Db {
    Db(map[], None, [], [], tableSize, partitionSize)
  }

  // ---- set, del and the swap ----

  /** `swapAndSaveIndex`: the table becomes the immutable one, a fresh table
      and a fresh log take over, and the segment `saveFile` writes from the
      frozen table goes to the front of the list. */
  function Swap(db: Db): (next: Db)
    ensures next.cur == map[] && next.wal == [] && next.immutable == Some(db.cur)
    ensures next.segments == [Build(db.cur, db.partitionSize)] + db.segments
    ensures next.tableSize == db.tableSize && next.partitionSize == db.partitionSize
  {
    db.(immutable := Some(db.cur), cur := map[], wal := [],
        segments := [Build(db.cur, db.partitionSize)] + db.segments)
  }

  /** Logging a record and putting it: the frame goes to the log first. */
  function Log(db: Db, r: Record): Db {
    db.(wal := db.wal + Frame(r), cur := db.cur[r.key := r])
  }

  /** What `set` and `del` share: log, put, and swap once the table holds
      `tableSize` keys. */
  function Write(db: Db, r: Record): (next: Db)
    ensures next.tableSize == db.tableSize && next.partitionSize == db.partitionSize
  {
    var logged := Log(db, r);
    if |logged.cur| >= db.tableSize then Swap(logged) else logged
  }

  /** `set`: a live record; both reads give its value right away. */
  function Set(db: Db, key: Key, value: string): (next: Db)
    ensures Get(next, key) == Ok(Some(value)) && GetLatest(next, key) == Ok(Some(value))
    ensures next.tableSize == db.tableSize && next.partitionSize == db.partitionSize
  {
    GetAfterWrite(db, NewValue(key, value));
    Write(db, NewValue(key, value))
  }

  /** `del`: a tombstone; both reads give null right away. */
  function Del(db: Db, key: Key): (next: Db)
    ensures Get(next, key) == Ok(None) && GetLatest(next, key) == Ok(None)
    ensures next.tableSize == db.tableSize && next.partitionSize == db.partitionSize
  {
    GetAfterWrite(db, Tombstone(key));
    Write(db, Tombstone(key))
  }

  // ---- get ----

  /** `get` as written: a record in either table answers (null for a
      tombstone), otherwise the first segment whose `query` is not null. A
      segment's null answer does not say whether the key is absent there or
      deleted, and the scan goes on to older segments either way. */
  function Get(db: Db, key: Key): (r: Result<Option<string>>)
    ensures r.Err? ==> key !in db.cur && !(db.immutable.Some? && key in db.immutable.value)
    ensures r.Err? ==> exists i :: 0 <= i < |db.segments| && Query(db.segments[i], key) == r
    ensures r.Ok? && r.value.Some? && key !in db.cur && !(db.immutable.Some? && key in db.immutable.value) ==>
      exists i :: 0 <= i < |db.segments| && Query(db.segments[i], key) == r
  {
    if key in db.cur then Ok(LiveValue(db.cur[key]))
    else if db.immutable.Some? && key in db.immutable.value then Ok(LiveValue(db.immutable.value[key]))
    else ScanSegments(db.segments, key)
  }

  function ScanSegments(segments: seq<SsTable>, key: Key): (r: Result<Option<string>>)
    ensures |segments| == 0 ==> r == Ok(None)
    ensures r.Ok? && r.value.Some? ==> exists i :: 0 <= i < |segments| && Query(segments[i], key) == r
    ensures r.Err? ==> exists i :: 0 <= i < |segments| && Query(segments[i], key) == r
    decreases |segments|
  {
    if |segments| == 0 then Ok(None)
    else
      var value :- Query(segments[0], key);
      if value.Some? then Ok(value)
      else
        var rest := ScanSegments(segments[1..], key);
        if rest.Err? || rest.value.Some? then FoundLater(segments, key, rest); rest else rest
  }

  /** What an older segment answers, a value or a failure, one of the
      segments answers. */
  lemma {:induction false} FoundLater(segments: seq<SsTable>, key: Key, r: Result<Option<string>>)
    requires |segments| > 0
    requires exists i :: 0 <= i < |segments[1..]| && Query(segments[1..][i], key) == r
    ensures exists i :: 0 <= i < |segments| && Query(segments[i], key) == r
  {
    var i :| 0 <= i < |segments[1..]| && Query(segments[1..][i], key) == r;
    assert segments[1..][i] == segments[i + 1];
  }

  /** `get` corrected: the newest segment holding a record for the key
      answers, a tombstone included. */
  function GetLatest(db: Db, key: Key): (r: Result<Option<string>>)
    ensures r.Ok? && r.value.Some? ==> Get(db, key) == r
  {
    ScanAgree(db.segments, key);
    if key in db.cur then Ok(LiveValue(db.cur[key]))
    else if db.immutable.Some? && key in db.immutable.value then Ok(LiveValue(db.immutable.value[key]))
    else ScanLatest(db.segments, key)
  }

  function ScanLatest(segments: seq<SsTable>, key: Key): Result<Option<string>>
    decreases |segments|
  {
    if |segments| == 0 then Ok(None)
    else
      var found :- Probe(segments[0], key);
      if found.Some? then Ok(SegmentValue(found.value)) else ScanLatest(segments[1..], key)
  }

  /** Where the corrected scan finds a value, the scan as written finds the
      same one: they differ only where the corrected one stops at a
      tombstone. */
  lemma {:induction false} ScanAgree(segments: seq<SsTable>, key: Key)
    ensures ScanLatest(segments, key).Ok? && ScanLatest(segments, key).value.Some? ==>
      ScanSegments(segments, key) == ScanLatest(segments, key)
    decreases |segments|
  {
    if |segments| > 0 {
      ScanAgree(segments[1..], key);
    }
  }

  // ---- one write ----

  /** A record in the table answers both reads. */
  lemma {:induction false} GetFromTable(db: Db, key: Key)
    requires key in db.cur
    ensures Get(db, key) == Ok(LiveValue(db.cur[key]))
    ensures GetLatest(db, key) == Ok(LiveValue(db.cur[key]))
  {
  }

  /** Otherwise a record in the immutable table answers both reads. */
  lemma {:induction false} GetFromImmutable(db: Db, key: Key)
    requires key !in db.cur && db.immutable.Some? && key in db.immutable.value
    ensures Get(db, key) == Ok(LiveValue(db.immutable.value[key]))
    ensures GetLatest(db, key) == Ok(LiveValue(db.immutable.value[key]))
  {
  }

  /** Right after a write, reading its key gives the record written, from
      the table or, after a swap, from the immutable table. */
  lemma {:induction false} GetAfterWrite(db: Db, r: Record)
    ensures Get(Write(db, r), r.key) == Ok(LiveValue(r))
    ensures GetLatest(Write(db, r), r.key) == Ok(LiveValue(r))
  {
    var logged := Log(db, r);
    if |logged.cur| >= db.tableSize {
      var next := Swap(logged);
      assert Write(db, r) == next;
      assert next.cur == map[] && next.immutable == Some(logged.cur);
      GetFromImmutable(next, r.key);
    } else {
      assert Write(db, r) == logged;
      GetFromTable(logged, r.key);
    }
  }

  /** `set(k, v)` then `get(k)` gives v, whether or not the write swapped. */
  lemma {:induction false} SetThenGet(db: Db, key: Key, value: string)
    ensures Get(Set(db, key, value), key) == Ok(Some(value))
    ensures GetLatest(Set(db, key, value), key) == Ok(Some(value))
  {
    GetAfterWrite(db, NewValue(key, value));
  }

  /** `del(k)` then `get(k)` gives null, whatever the segments hold: the
      tombstone in a table answers before any segment is read. */
  lemma {:induction false} DelThenGet(db: Db, key: Key)
    ensures Get(Del(db, key), key) == Ok(None)
    ensures GetLatest(Del(db, key), key) == Ok(None)
  {
    GetAfterWrite(db, Tombstone(key));
  }

  /** `set` and `del` build records with flag 0 and flag 1 only. */
  lemma {:induction false} WritesEngineFlags(key: Key, value: string)
    ensures EngineFlag(NewValue(key, value)) && NewValue(key, value).delete == 0
    ensures EngineFlag(Tombstone(key)) && Tombstone(key).delete == 1
  {
  }

  /** Putting a key adds at most that key. */
  lemma {:induction false} PutSize(t: Table, r: Record)
    ensures |t[r.key := r]| == if r.key in t then |t| else |t| + 1
  {
    if r.key in t {
      assert t[r.key := r].Keys == t.Keys;
    } else {
      assert t[r.key := r].Keys == t.Keys + {r.key};
    }
  }

  /** A write logs the record's frame, 4 + |payload| bytes, before the table
      changes; without a swap nothing else changes, and a swap moves the
      whole table, then exactly `tableSize` keys, to the immutable table and
      a new segment and starts an empty table and an empty log. */
  lemma {:induction false} WriteEffect(db: Db, r: Record)
    requires 1 <= db.tableSize && |db.cur| < db.tableSize
    ensures var next := Write(db, r);
      var logged := db.cur[r.key := r];
      && |Log(db, r).wal| == |db.wal| + 4 + |EncodeRecord(r)|
      && Log(db, r).wal[..|db.wal|] == db.wal
      && Log(db, r).cur == logged
      && (|logged| < db.tableSize ==> next == Log(db, r))
      && (|logged| >= db.tableSize ==>
            && |logged| == db.tableSize
            && next.cur == map[] && next.wal == []
            && next.immutable == Some(logged)
            && next.segments == [Build(logged, db.partitionSize)] + db.segments)
      && |next.cur| < db.tableSize
  {
    PutSize(db.cur, r);
    assert (db.wal + Frame(r))[..|db.wal|] == db.wal;
  }

  /** After a write the table holds fewer than `tableSize` keys: either the
      put left it below, or the swap emptied it. */
  lemma WriteBound(db: Db, r: Record)
    requires 1 <= db.tableSize
    ensures |Write(db, r).cur| < db.tableSize
  {
  }

  // ---- what the store holds ----

  /** The first table holding the key answers. */
  function Lookup(tables: seq<Table>, key: Key): Option<Record>
    decreases |tables|
  {
    if |tables| == 0 then None
    else if key in tables[0] then Some(tables[0][key])
    else Lookup(tables[1..], key)
  }

  /** The segments flushed from the tables, newest first. */
  function BuildAll(tables: seq<Table>, partitionSize: int): (ss: seq<SsTable>)
    ensures |ss| == |tables|
    decreases |tables|
  {
    if |tables| == 0 then [] else [Build(tables[0], partitionSize)] + BuildAll(tables[1..], partitionSize)
  }

  /** The segments are the flushed tables' segments, in the same order,
      each flushed from a table holding at least one key, and the immutable
      table is the newest flushed one. */
  ghost predicate Stored(db: Db, flushed: seq<Table>) {
    && db.segments == BuildAll(flushed, db.partitionSize)
    && (forall i :: 0 <= i < |flushed| ==> flushed[i] != map[])
    && db.immutable == (if |flushed| == 0 then None else Some(flushed[0]))
  }

  /** The log holds exactly the frames of the writes since the last swap,
      each with a length that fits its field, and the table is what putting
      them gives. */
  ghost predicate Logged(db: Db, pending: seq<Record>) {
    && db.wal == Frames(pending) && db.cur == PutAll(map[], pending)
    && (forall i :: 0 <= i < |pending| ==> Framable(pending[i]))
  }

  /** Every write is one `set` or `del` can make, and the table in front of
      the flushed ones answers every key with the last record written. */
  ghost predicate Answers(cur: Table, flushed: seq<Table>, history: seq<Record>) {
    && (forall i :: 0 <= i < |history| ==> EngineFlag(history[i]) && Framable(history[i]))
    && (forall k :: Lookup([cur] + flushed, k) == LastWrite(history, k))
  }

  /** How the store stands after the writes `history`, oldest first:
      `flushed` are the tables swapped out, newest first, and `pending` are
      the writes since the last swap. */
  ghost predicate Holds(db: Db, flushed: seq<Table>, pending: seq<Record>, history: seq<Record>) {
    Stored(db, flushed) && Logged(db, pending) && Answers(db.cur, flushed, history)
  }

  /** A table in front of others answers first. */
  lemma {:induction false} LookupCons(t: Table, tables: seq<Table>, key: Key)
    ensures Lookup([t] + tables, key) == if key in t then Some(t[key]) else Lookup(tables, key)
  {
    assert ([t] + tables)[1..] == tables;
  }

  /** An empty table in front changes no answer. */
  lemma {:induction false} LookupSkipsEmpty(tables: seq<Table>, key: Key)
    ensures Lookup([map[]] + tables, key) == Lookup(tables, key)
  {
    LookupCons(map[], tables, key);
  }

  /** The store just opened holds nothing. */
  lemma {:induction false} OpenHolds(tableSize: int, partitionSize: int)
    ensures Holds(Open(tableSize, partitionSize), [], [], [])
  {
    forall k
      ensures Lookup([map[]] + [], k) == LastWrite([], k)
    {
      LookupSkipsEmpty([], k);
    }
  }

  /** Putting a record in front keeps the answers right. */
  lemma {:induction false} AnswersPut(cur: Table, flushed: seq<Table>, history: seq<Record>, r: Record)
    requires Answers(cur, flushed, history) && EngineFlag(r) && Framable(r)
    ensures Answers(cur[r.key := r], flushed, history + [r])
  {
    var h := history + [r];
    forall i | 0 <= i < |h|
      ensures EngineFlag(h[i]) && Framable(h[i])
    {
      if i < |history| {
        assert h[i] == history[i];
      }
    }
    forall k
      ensures Lookup([cur[r.key := r]] + flushed, k) == LastWrite(h, k)
    {
      assert h[..|h| - 1] == history;
      LookupCons(cur[r.key := r], flushed, k);
      LookupCons(cur, flushed, k);
    }
  }

  lemma {:induction false} FramableSnoc(rs: seq<Record>, r: Record)
    requires (forall i :: 0 <= i < |rs| ==> Framable(rs[i])) && Framable(r)
    ensures forall i :: 0 <= i < |rs + [r]| ==> Framable((rs + [r])[i])
  {
    forall i | 0 <= i < |rs + [r]|
      ensures Framable((rs + [r])[i])
    {
      if i < |rs| {
        assert (rs + [r])[i] == rs[i];
      }
    }
  }

  /** Logging and putting one record keeps what the store holds. */
  lemma {:induction false} LogHolds(db: Db, flushed: seq<Table>, pending: seq<Record>,
                                    history: seq<Record>, r: Record)
    requires Holds(db, flushed, pending, history) && EngineFlag(r) && Framable(r)
    ensures Holds(Log(db, r), flushed, pending + [r], history + [r])
  {
    FramesSnoc(pending, r);
    PutAllSnoc(map[], pending, r);
    AnswersPut(db.cur, flushed, history, r);
    FramableSnoc(pending, r);
  }

  /** Freezing a table moves it behind an empty one: no answer changes. */
  lemma {:induction false} AnswersFreeze(cur: Table, flushed: seq<Table>, history: seq<Record>)
    requires Answers(cur, flushed, history)
    ensures Answers(map[], [cur] + flushed, history)
  {
    forall k
      ensures Lookup([map[]] + ([cur] + flushed), k) == LastWrite(history, k)
    {
      LookupSkipsEmpty([cur] + flushed, k);
    }
  }

  /** The swap puts the frozen table's segment in front of the segments. */
  lemma {:induction false} SwapStored(db: Db, flushed: seq<Table>)
    requires Stored(db, flushed) && db.cur != map[]
    ensures Stored(Swap(db), [db.cur] + flushed)
  {
    var next := Swap(db);
    BuildAllCons(db.cur, flushed, db.partitionSize);
    assert next.segments == BuildAll([db.cur] + flushed, db.partitionSize);
    NonEmptyCons(db.cur, flushed);
    assert ([db.cur] + flushed)[0] == db.cur;
  }

  /** The segment of a table in front of others comes first. */
  lemma {:induction false} BuildAllCons(t: Table, tables: seq<Table>, partitionSize: int)
    ensures BuildAll([t] + tables, partitionSize) == [Build(t, partitionSize)] + BuildAll(tables, partitionSize)
  {
    assert ([t] + tables)[1..] == tables;
  }

  /** A non-empty table in front of non-empty tables. */
  lemma {:induction false} NonEmptyCons(t: Table, tables: seq<Table>)
    requires t != map[] && forall i :: 0 <= i < |tables| ==> tables[i] != map[]
    ensures forall i :: 0 <= i < |[t] + tables| ==> ([t] + tables)[i] != map[]
  {
    forall i | 0 <= i < |[t] + tables|
      ensures ([t] + tables)[i] != map[]
    {
      if i > 0 {
        assert ([t] + tables)[i] == tables[i - 1];
      }
    }
  }

  /** The swap keeps what the store holds: the frozen table moves in front
      of the flushed ones, and the log and the table start empty. */
  lemma {:induction false} SwapHolds(db: Db, flushed: seq<Table>, pending: seq<Record>,
                                     history: seq<Record>)
    requires Holds(db, flushed, pending, history) && db.cur != map[]
    ensures Holds(Swap(db), [db.cur] + flushed, [], history)
  {
    SwapStored(db, flushed);
    AnswersFreeze(db.cur, flushed, history);
  }

  /** Every write keeps what the store holds. */
  lemma {:induction false} WriteHolds(db: Db, flushed: seq<Table>, pending: seq<Record>,
                                      history: seq<Record>, r: Record)
    returns (flushed': seq<Table>, pending': seq<Record>)
    requires Holds(db, flushed, pending, history) && EngineFlag(r) && Framable(r)
    ensures Holds(Write(db, r), flushed', pending', history + [r])
    ensures flushed' == if |Log(db, r).cur| >= db.tableSize then [Log(db, r).cur] + flushed else flushed
    ensures pending' == if |Log(db, r).cur| >= db.tableSize then [] else pending + [r]
  {
    LogHolds(db, flushed, pending, history, r);
    var logged := Log(db, r);
    if |logged.cur| >= db.tableSize {
      assert r.key in logged.cur;
      assert Write(db, r) == Swap(logged);
      SwapHolds(logged, flushed, pending + [r], history + [r]);
      flushed', pending' := [logged.cur] + flushed, [];
    } else {
      assert Write(db, r) == logged;
      flushed', pending' := flushed, pending + [r];
    }
  }

  // ---- reading what the store holds ----

  /** The segment at place i is the one flushed from table i. */
  lemma {:induction false} BuildAllAt(tables: seq<Table>, partitionSize: int, i: nat)
    requires i < |tables|
    ensures BuildAll(tables, partitionSize)[i] == Build(tables[i], partitionSize)
    decreases i
  {
    if i > 0 {
      BuildAllAt(tables[1..], partitionSize, i - 1);
    }
  }

  /** Segments that each find what a table holds answer as the first table
      holding the key. */
  lemma {:induction false} ScanLatestFinds(segments: seq<SsTable>, tables: seq<Table>, key: Key)
    requires |segments| == |tables|
    requires forall i :: 0 <= i < |segments| ==> Probe(segments[i], key) == Ok(Find(tables[i], key))
    ensures ScanLatest(segments, key)
         == Ok(if Lookup(tables, key).Some? then SegmentValue(Lookup(tables, key).value) else None)
    decreases |segments|
  {
    if |segments| > 0 {
      assert Probe(segments[0], key) == Ok(Find(tables[0], key));
      ScanLatestFinds(segments[1..], tables[1..], key);
    }
  }

  /** Every flushed segment finds what its table holds. */
  lemma {:induction false} BuiltFinds(tables: seq<Table>, partitionSize: int, key: Key)
    requires forall i :: 0 <= i < |tables| ==> tables[i] != map[]
    ensures forall i :: 0 <= i < |tables| ==>
      Probe(BuildAll(tables, partitionSize)[i], key) == Ok(Find(tables[i], key))
  {
    forall i | 0 <= i < |tables|
      ensures Probe(BuildAll(tables, partitionSize)[i], key) == Ok(Find(tables[i], key))
    {
      BuildAllAt(tables, partitionSize, i);
      ProbeBuilt(tables[i], partitionSize, key);
    }
  }

  /** The last record written is one the engine wrote. */
  lemma {:induction false} LastWriteFlag(history: seq<Record>, key: Key)
    requires forall i :: 0 <= i < |history| ==> EngineFlag(history[i])
    ensures LastWrite(history, key).Some? ==> EngineFlag(LastWrite(history, key).value)
    decreases |history|
  {
    if |history| > 0 && history[|history| - 1].key != key {
      LastWriteFlag(history[..|history| - 1], key);
    }
  }

  /** The corrected `get` answers with the record the first table holding
      the key holds, the current table first. */
  lemma {:induction false} LatestFromTables(db: Db, flushed: seq<Table>, key: Key)
    requires Stored(db, flushed)
    requires Lookup([db.cur] + flushed, key).Some? ==> EngineFlag(Lookup([db.cur] + flushed, key).value)
    ensures GetLatest(db, key)
         == Ok(if Lookup([db.cur] + flushed, key).Some? then LiveValue(Lookup([db.cur] + flushed, key).value) else None)
  {
    LookupCons(db.cur, flushed, key);
    if key in db.cur {
      GetFromTable(db, key);
    } else {
      LatestFromFlushed(db, flushed, key);
    }
  }

  /** A key not in the current table is answered by the first flushed
      table holding it: the immutable table, then the segments. */
  lemma {:induction false} LatestFromFlushed(db: Db, flushed: seq<Table>, key: Key)
    requires Stored(db, flushed) && key !in db.cur
    requires Lookup(flushed, key).Some? ==> EngineFlag(Lookup(flushed, key).value)
    ensures GetLatest(db, key)
         == Ok(if Lookup(flushed, key).Some? then LiveValue(Lookup(flushed, key).value) else None)
  {
    if |flushed| > 0 && key in flushed[0] {
      LatestFromImmutable(db, flushed, key);
    } else {
      LatestPastImmutable(db, flushed, key);
    }
  }

  /** A key in the immutable table, the newest flushed one, is read there. */
  lemma {:induction false} LatestFromImmutable(db: Db, flushed: seq<Table>, key: Key)
    requires |flushed| > 0 && db.immutable == Some(flushed[0]) && key !in db.cur && key in flushed[0]
    ensures GetLatest(db, key)
         == Ok(if Lookup(flushed, key).Some? then LiveValue(Lookup(flushed, key).value) else None)
  {
    LookupCons(flushed[0], flushed[1..], key);
    assert [flushed[0]] + flushed[1..] == flushed;
    GetFromImmutable(db, key);
  }

  /** A key in neither table is answered by the segments, which read a
      record the engine wrote as the table does. */
  lemma {:induction false} LatestPastImmutable(db: Db, flushed: seq<Table>, key: Key)
    requires Stored(db, flushed) && key !in db.cur && (|flushed| > 0 ==> key !in flushed[0])
    requires Lookup(flushed, key).Some? ==> EngineFlag(Lookup(flushed, key).value)
    ensures GetLatest(db, key)
         == Ok(if Lookup(flushed, key).Some? then LiveValue(Lookup(flushed, key).value) else None)
  {
    if Lookup(flushed, key).Some? {
      ReadRulesAgree(Lookup(flushed, key).value);
    }
    LatestFromSegments(db, flushed, key);
  }

  /** The corrected `get` answers with the last record written for the key:
      its value when it is live, null when it is a tombstone or when the key
      was never written. */
  lemma {:induction false} GetLatestReadsLastWrite(db: Db, flushed: seq<Table>, pending: seq<Record>,
                                                   history: seq<Record>, key: Key)
    requires Holds(db, flushed, pending, history)
    ensures GetLatest(db, key)
         == Ok(if LastWrite(history, key).Some? then LiveValue(LastWrite(history, key).value) else None)
  {
    assert Stored(db, flushed) && Answers(db.cur, flushed, history);
    assert Lookup([db.cur] + flushed, key) == LastWrite(history, key);
    LastWriteFlag(history, key);
    LatestFromTables(db, flushed, key);
  }

  /** A key in neither table is read from the flushed segments. */
  lemma {:induction false} LatestFromSegments(db: Db, flushed: seq<Table>, key: Key)
    requires Stored(db, flushed) && key !in db.cur && (|flushed| > 0 ==> key !in flushed[0])
    ensures GetLatest(db, key)
         == Ok(if Lookup(flushed, key).Some? then SegmentValue(Lookup(flushed, key).value) else None)
  {
    BuiltFinds(flushed, db.partitionSize, key);
    ScanLatestFinds(db.segments, flushed, key);
  }

  // ---- `get` as written ----

  /** The first table holding a live record for the key answers; tables
      holding a tombstone for it are passed over. */
  function FirstLive(tables: seq<Table>, key: Key): Option<string>
    decreases |tables|
  {
    if |tables| == 0 then None
    else if key in tables[0] && SegmentValue(tables[0][key]).Some? then SegmentValue(tables[0][key])
    else FirstLive(tables[1..], key)
  }

  /** Segments that each find what a table holds, scanned as `get` scans
      them, answer with the first live record: a tombstone in a newer
      segment does not hide a value in an older one. */
  lemma {:induction false} ScanSegmentsFinds(segments: seq<SsTable>, tables: seq<Table>, key: Key)
    requires |segments| == |tables|
    requires forall i :: 0 <= i < |segments| ==> Probe(segments[i], key) == Ok(Find(tables[i], key))
    ensures ScanSegments(segments, key) == Ok(FirstLive(tables, key))
    decreases |segments|
  {
    if |segments| > 0 {
      assert Probe(segments[0], key) == Ok(Find(tables[0], key));
      ScanSegmentsFinds(segments[1..], tables[1..], key);
    }
  }

  /** `get` as written, on any store: a record in the table or the immutable
      table answers, otherwise the first flushed table with a live record. */
  lemma {:induction false} GetReadsFirstLive(db: Db, flushed: seq<Table>, pending: seq<Record>,
                                             history: seq<Record>, key: Key)
    requires Holds(db, flushed, pending, history)
    ensures Get(db, key) == Ok(
      if key in db.cur then LiveValue(db.cur[key])
      else if |flushed| > 0 && key in flushed[0] then LiveValue(flushed[0][key])
      else FirstLive(flushed, key))
  {
    if key !in db.cur {
      BuiltFinds(flushed, db.partitionSize, key);
      ScanSegmentsFinds(db.segments, flushed, key);
    }
  }

  /** With `tableSize` 1 every write is flushed at once. */
  lemma {:induction false} WriteFlushes(db: Db, flushed: seq<Table>, history: seq<Record>, r: Record)
    requires Holds(db, flushed, [], history) && db.tableSize == 1 && EngineFlag(r) && Framable(r)
    ensures Holds(Write(db, r), [map[r.key := r]] + flushed, [], history + [r])
  {
    var f, p := WriteHolds(db, flushed, [], history, r);
    assert Log(db, r).cur == map[r.key := r];
  }

  /** A store whose flushed tables are, newest first, one holding b, one
      holding a's tombstone and one holding a's value. */
  lemma {:induction false} ResurrectsFrom(db: Db, t1: Table, t2: Table, t3: Table, history: seq<Record>)
    requires t1 == map["a" := NewValue("a", "1")] && t2 == map["a" := Tombstone("a")]
    requires t3 == map["b" := NewValue("b", "2")]
    requires history == [] + [NewValue("a", "1")] + [Tombstone("a")] + [NewValue("b", "2")]
    requires Holds(db, [t3] + ([t2] + ([t1] + [])), [], history)
    ensures Get(db, "a") == Ok(Some("1"))
    ensures GetLatest(db, "a") == Ok(None)
  {
    var fl := [t3] + ([t2] + ([t1] + []));
    GetReadsFirstLive(db, fl, [], history, "a");
    ResurrectsTables(t1, t2, t3);
    GetLatestReadsLastWrite(db, fl, [], history, "a");
    ResurrectsHistory(history);
  }

  /** Passing over the tombstone, the first live record for a is its value. */
  lemma {:induction false} ResurrectsTables(t1: Table, t2: Table, t3: Table)
    requires t1 == map["a" := NewValue("a", "1")] && t2 == map["a" := Tombstone("a")]
    requires t3 == map["b" := NewValue("b", "2")]
    ensures FirstLive([t3] + ([t2] + ([t1] + [])), "a") == Some("1")
  {
    var fl := [t3] + ([t2] + ([t1] + []));
    assert fl[1..] == [t2] + [t1] && fl[1..][1..] == [t1];
    assert "a" !in t3 && SegmentValue(t2["a"]) == None;
    assert FirstLive([t1], "a") == Some("1");
    assert FirstLive([t2] + [t1], "a") == Some("1");
  }

  /** The last write to a is its tombstone. */
  lemma {:induction false} ResurrectsHistory(history: seq<Record>)
    requires history == [] + [NewValue("a", "1")] + [Tombstone("a")] + [NewValue("b", "2")]
    ensures LastWrite(history, "a") == Some(Tombstone("a"))
  {
    assert history[..2] == [NewValue("a", "1"), Tombstone("a")];
  }

  /** Three writes with `tableSize` 1, each flushed at once: set a, delete a,
      set b. `get(a)` finds the tombstone's segment null and goes on to the
      oldest segment, which still holds a's value; the corrected `get`
      stops at the tombstone. */
  lemma {:induction false} GetResurrects()
    ensures var db := Set(Del(Set(Open(1, 2), "a", "1"), "a"), "b", "2");
      && Get(db, "a") == Ok(Some("1"))
      && GetLatest(db, "a") == Ok(None)
  {
    var r1, r2, r3 := NewValue("a", "1"), Tombstone("a"), NewValue("b", "2");
    var db0 := Open(1, 2);
    var db1 := Write(db0, r1);
    var db2 := Write(db1, r2);
    var t1, t2, t3 := map[r1.key := r1], map[r2.key := r2], map[r3.key := r3];
    var h0: seq<Record> := [];
    var f0: seq<Table> := [];
    OpenHolds(1, 2);
    WriteFlushes(db0, f0, h0, r1);
    WriteFlushes(db1, [t1] + f0, h0 + [r1], r2);
    WriteFlushes(db2, [t2] + ([t1] + f0), h0 + [r1] + [r2], r3);
    ResurrectsFrom(Write(db2, r3), t1, t2, t3, h0 + [r1] + [r2] + [r3]);
  }

  // ---- runs of commands ----

  /** One `set` or `del`. */
  datatype Op = SetOp(key: Key, value: string) | DelOp(key: Key)

  /** The record a command writes. */
  function OpRecord(op: Op): (r: Record)
    ensures r.key == op.key && EngineFlag(r)
    ensures LiveValue(r) == if op.SetOp? then Some(op.value) else None
  {
    match op
    case SetOp(k, v) => NewValue(k, v)
    case DelOp(k) => Tombstone(k)
  }

  function Apply(db: Db, op: Op): Db {
    match op
    case SetOp(k, v) => Set(db, k, v)
    case DelOp(k) => Del(db, k)
  }

  /** Both commands are writes of their record. */
  lemma {:induction false} ApplyWrites(db: Db, op: Op)
    ensures Apply(db, op) == Write(db, OpRecord(op))
  {
  }

  /** The commands run in order, the last one last. */
  function Run(db: Db, ops: seq<Op>): (next: Db)
    ensures next.tableSize == db.tableSize && next.partitionSize == db.partitionSize
    decreases |ops|
  {
    if |ops| == 0 then db else Apply(Run(db, ops[..|ops| - 1]), ops[|ops| - 1])
  }

  /** What a key should read after the commands: the value of the last
      command naming it when that is a `set`, null when it is a `del` or
      when no command names it. */
  function Latest(ops: seq<Op>, key: Key): Option<string>
    decreases |ops|
  {
    if |ops| == 0 then None
    else if ops[|ops| - 1].key == key then
      (if ops[|ops| - 1].SetOp? then Some(ops[|ops| - 1].value) else None)
    else Latest(ops[..|ops| - 1], key)
  }

  /** The records the commands write, in order. */
  function Records(ops: seq<Op>): (rs: seq<Record>)
    ensures |rs| == |ops|
    decreases |ops|
  {
    if |ops| == 0 then [] else Records(ops[..|ops| - 1]) + [OpRecord(ops[|ops| - 1])]
  }

  /** Commands whose payloads fit the log's length field. */
  predicate Loggable(ops: seq<Op>) {
    forall i :: 0 <= i < |ops| ==> Framable(OpRecord(ops[i]))
  }

  /** Every run from an empty store keeps what the store holds. */
  lemma {:induction false} RunHolds(tableSize: int, partitionSize: int, ops: seq<Op>)
    returns (flushed: seq<Table>, pending: seq<Record>)
    requires Loggable(ops)
    ensures Holds(Run(Open(tableSize, partitionSize), ops), flushed, pending, Records(ops))
    decreases |ops|
  {
    if |ops| == 0 {
      OpenHolds(tableSize, partitionSize);
      flushed, pending := [], [];
    } else {
      var n := |ops| - 1;
      assert Loggable(ops[..n]) by {
        forall i | 0 <= i < n
          ensures Framable(OpRecord(ops[..n][i]))
        {
          assert ops[..n][i] == ops[i];
        }
      }
      var fl, pe := RunHolds(tableSize, partitionSize, ops[..n]);
      var db := Run(Open(tableSize, partitionSize), ops[..n]);
      ApplyWrites(db, ops[n]);
      flushed, pending := WriteHolds(db, fl, pe, Records(ops[..n]), OpRecord(ops[n]));
    }
  }

  /** The last record written for a key carries the value `Latest` names. */
  lemma {:induction false} LastWriteOfOps(ops: seq<Op>, key: Key)
    ensures (if LastWrite(Records(ops), key).Some? then LiveValue(LastWrite(Records(ops), key).value) else None)
         == Latest(ops, key)
    decreases |ops|
  {
    if |ops| > 0 {
      var n := |ops| - 1;
      assert Records(ops)[..n] == Records(ops[..n]);
      assert Records(ops)[n] == OpRecord(ops[n]);
      LastWriteOfOps(ops[..n], key);
    }
  }

  /** The corrected `get` after any run of commands from an empty store
      reads the value of the last command naming the key, null after a
      `del`, whenever the flushes happened. */
  lemma {:induction false} LatestWins(tableSize: int, partitionSize: int, ops: seq<Op>, key: Key)
    requires Loggable(ops)
    ensures GetLatest(Run(Open(tableSize, partitionSize), ops), key) == Ok(Latest(ops, key))
  {
    var flushed, pending := RunHolds(tableSize, partitionSize, ops);
    GetLatestReadsLastWrite(Run(Open(tableSize, partitionSize), ops), flushed, pending, Records(ops), key);
    LastWriteOfOps(ops, key);
  }

  /** After any run the log replays to the current table: what a restart
      recovers with `restoreByWal` is exactly what was not yet flushed. */
  lemma {:induction false} LogRecoversTable(tableSize: int, partitionSize: int, ops: seq<Op>)
    requires Loggable(ops)
    ensures var db := Run(Open(tableSize, partitionSize), ops);
      Replay(db.wal, map[]) == Ok(db.cur)
  {
    var flushed, pending := RunHolds(tableSize, partitionSize, ops);
    ReplayFrames(pending, map[]);
  }

  /** With `tableSize` at least 1, the table never holds `tableSize` keys
      once a write returns. */
  lemma RunBound(tableSize: int, partitionSize: int, ops: seq<Op>)
    requires 1 <= tableSize
    ensures |Run(Open(tableSize, partitionSize), ops).cur| < tableSize
  {
  }

}
