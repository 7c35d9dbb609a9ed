/** What `query` finds in a segment. The sparse-index loop stops at the
    greatest indexed key at most the key; in a segment `saveFile` wrote,
    that partition is the only one that can hold the key, so a query agrees
    with a lookup in the table the segment was built from. */
module SegmentLookup {
  import opened Wrappers
  import opened Bytes
  import opened Keys
  import opened DataModel
  import opened Position
  import opened SegmentCodec
  import opened SsTable

  // ---- the sparse-index loop ----

  /** Entry j is where the loop stops: its key is at most the key, and the
      next key, if there is one, is greater. */
  predicate StopsAt(es: seq<(Key, Position)>, key: Key, j: int) {
    0 <= j < |es| && !Less(key, es[j].0) && (j + 1 == |es| || Less(key, es[j + 1].0))
  }

  /** The loop runs on from entry i - 1, whose key is at most the key, and
      returns the range of the entry where it stops. */
  lemma {:induction false} ScanFromStops(es: seq<(Key, Position)>, key: Key, i: nat, last: Position)
    requires 1 <= i <= |es| && !Less(key, es[i - 1].0) && last == es[i - 1].1
    ensures exists j :: i - 1 <= j < |es| && StopsAt(es, key, j) && ScanFrom(es, key, i, last) == es[j].1
    decreases |es| - i
  {
    if i == |es| || Less(key, es[i].0) {
      assert StopsAt(es, key, i - 1);
    } else {
      ScanFromStops(es, key, i + 1, es[i].1);
    }
  }

  /** In an ascending list an earlier key is at most a later one. */
  lemma {:induction false} AscendingAtMost(ks: seq<Key>, a: nat, b: nat)
    requires Ascending(ks) && a <= b < |ks|
    ensures AtMost(ks[a], ks[b])
  {
    if a < b {
      assert Less(ks[a], ks[b]);
    }
  }

  /** In an ascending list, the entry where the loop stops splits the keys
      into those at most the key (up to it) and those greater (after it). */
  lemma {:induction false} StopsAtSplits(es: seq<(Key, Position)>, key: Key, j: nat, t: nat)
    requires Ascending(KeysOf(es)) && StopsAt(es, key, j) && t < |es|
    ensures AtMost(es[t].0, key) <==> t <= j
  {
    var ks := KeysOf(es);
    AtMostIsNotGreater(es[j].0, key);
    if t <= j {
      AscendingAtMost(ks, t, j);
      if es[t].0 != es[j].0 {
        LessTransitiveAtMost(es[t].0, es[j].0, key);
      }
    } else {
      AscendingAtMost(ks, j + 1, t);
      if es[j + 1].0 != es[t].0 {
        LessTransitive(key, es[j + 1].0, es[t].0);
      }
      AtMostIsNotGreater(es[t].0, key);
    }
  }

  lemma {:induction false} LessTransitiveAtMost(a: Key, b: Key, c: Key)
    requires Less(a, b) && AtMost(b, c)
    ensures AtMost(a, c)
  {
    if b != c {
      LessTransitive(a, b, c);
    }
  }

  /** The greatest key of the index that is at most the key. */
  predicate IsFloorKey(index: map<Key, Position>, key: Key, k: Key) {
    k in index && AtMost(k, key) && forall j :: j in index && AtMost(j, key) ==> AtMost(j, k)
  }

  /** At most one key is the floor. */
  lemma {:induction false} FloorKeyUnique(index: map<Key, Position>, key: Key, a: Key, b: Key)
    requires IsFloorKey(index, key, a) && IsFloorKey(index, key, b)
    ensures a == b
  {
    AtMostAntisymmetric(a, b);
  }

  /** Every key of a TreeMap is at some place in its entry list. */
  lemma {:induction false} EntryOf<V>(m: map<Key, V>, k: Key) returns (t: nat)
    requires k in m
    ensures t < |Entries(m)| && Entries(m)[t].0 == k
  {
    assert k in KeysOf(Entries(m));
    t :| 0 <= t < |Entries(m)| && KeysOf(Entries(m))[t] == k;
  }

  lemma {:induction false} NoEntries<V>(m: map<Key, V>)
    ensures |Entries(m)| == 0 <==> m == map[]
  {
    if |Entries(m)| == 0 {
      forall k | k in m
        ensures false
      {
        var t := EntryOf(m, k);
      }
    } else {
      assert Entries(m)[0].0 in m;
    }
  }

  /** A key below the first entry is below every key of the index. */
  lemma {:induction false} BelowEvery(index: map<Key, Position>, key: Key)
    requires |Entries(index)| > 0 && Less(key, Entries(index)[0].0)
    ensures forall k :: k in index ==> Less(key, k)
  {
    var es := Entries(index);
    forall k | k in index
      ensures Less(key, k)
    {
      var t := EntryOf(index, k);
      EntriesAscending(index);
      AscendingAtMost(KeysOf(es), 0, t);
      if es[0].0 != k {
        LessTransitive(key, es[0].0, k);
      }
    }
  }

  /** The entry where the loop stops holds the floor key. */
  lemma {:induction false} StopsAtFloor(index: map<Key, Position>, key: Key, j: nat)
    requires StopsAt(Entries(index), key, j)
    ensures IsFloorKey(index, key, Entries(index)[j].0)
    ensures index[Entries(index)[j].0] == Entries(index)[j].1
  {
    var es := Entries(index);
    var f := es[j].0;
    AtMostIsNotGreater(f, key);
    forall k | k in index && AtMost(k, key)
      ensures AtMost(k, f)
    {
      var t := EntryOf(index, k);
      EntriesAscending(index);
      StopsAtSplits(es, key, j, t);
      AscendingAtMost(KeysOf(es), t, j);
    }
  }

  /** An empty index leaves `lastSmall` null; a key below every indexed key
      returns early; otherwise the loop stops at the floor key's range. */
  lemma {:induction false} ScanIndexFloor(index: map<Key, Position>, key: Key)
    ensures ScanIndex(index, key) == NoIndex <==> index == map[]
    ensures ScanIndex(index, key) == BelowFirst <==> index != map[] && forall k :: k in index ==> Less(key, k)
    ensures ScanIndex(index, key).Partition? ==> exists k :: IsFloorKey(index, key, k) && ScanIndex(index, key).pos == index[k]
    ensures forall k :: IsFloorKey(index, key, k) ==> ScanIndex(index, key) == Partition(index[k])
  {
    var es := Entries(index);
    NoEntries(index);
    if |es| > 0 {
      if Less(key, es[0].0) {
        BelowEvery(index, key);
        forall k | IsFloorKey(index, key, k)
          ensures false
        {
          AtMostIsNotGreater(k, key);
        }
      } else {
        ScanFromStops(es, key, 1, es[0].1);
        var j :| 0 <= j < |es| && StopsAt(es, key, j) && ScanIndex(index, key) == Partition(es[j].1);
        StopsAtFloor(index, key, j);
        forall k | IsFloorKey(index, key, k)
          ensures ScanIndex(index, key) == Partition(index[k])
        {
          FloorKeyUnique(index, key, k, es[j].0);
        }
        AtMostIsNotGreater(es[0].0, key);
      }
    }
  }

  // ---- query on any segment ----

  /** With an empty sparse index `lastSmall` stays null and is dereferenced. */
  lemma {:induction false} QueryEmptyIndex(t: SsTable, key: Key)
    requires t.sparseIndex == map[]
    ensures Probe(t, key) == Err(NullPointer) && Query(t, key) == Err(NullPointer)
  {
    ScanIndexFloor(t.sparseIndex, key);
  }

  /** A key below every indexed key is reported missing whatever the file
      holds: no partition is read. */
  lemma {:induction false} QueryBelowFirst(t: SsTable, key: Key, file: seq<byte>)
    requires t.sparseIndex != map[] && forall k :: k in t.sparseIndex ==> Less(key, k)
    ensures Probe(t, key) == Ok(None) && Probe(t.(file := file), key) == Ok(None)
    ensures Query(t, key) == Ok(None)
  {
    ScanIndexFloor(t.sparseIndex, key);
  }

  /** Otherwise `query` reads exactly the partition of the greatest indexed
      key at most the key. */
  lemma {:induction false} QueryReadsFloor(t: SsTable, key: Key, k: Key)
    requires IsFloorKey(t.sparseIndex, key, k)
    ensures Probe(t, key) == ReadPartition(t.file, t.sparseIndex[k], key)
  {
    ScanIndexFloor(t.sparseIndex, key);
  }

  /** Some indexed key is at most the key exactly when there is a floor key. */
  lemma {:induction false} FloorExists(index: map<Key, Position>, key: Key)
    ensures (exists k :: IsFloorKey(index, key, k)) <==> exists k :: k in index && AtMost(k, key)
  {
    ScanIndexFloor(index, key);
    if k :| k in index && AtMost(k, key) {
      AtMostIsNotGreater(k, key);
    }
  }

  // ---- the partitions of a segment saveFile wrote ----

  /** The index entries name the partitions' first keys, in order. */
  lemma {:induction false} LayoutKeys(ks: seq<Key>, bss: seq<seq<byte>>, start: int)
    requires |ks| == |bss|
    ensures KeysOf(Layout(ks, bss, start)) == ks
  {
    if |ks| > 0 {
      LayoutKeys(ks[1..], bss[1..], start + |bss[0]|);
      assert ks == [ks[0]] + ks[1..];
    }
  }

  /** The in-memory sparse index of a built segment, listed in key order, is
      the list `savePart` built it from. */
  lemma {:induction false} IndexOfBuild(table: Table, partitionSize: int)
    ensures Entries(Build(table, partitionSize).sparseIndex)
         == PartIndex(Partitions(table, partitionSize), 0)
  {
    var parts := Partitions(table, partitionSize);
    EntriesAscending(table);
    FirstKeysAscending(Entries(table), Width(partitionSize));
    LayoutKeys(FirstKeys(parts), Blobs(parts), 0);
    EntriesOfToMap(PartIndex(parts, 0));
  }

  /** Blob j of blobs written back to back, whatever follows them, reads
      back from the range after blobs 0..j-1. */
  lemma {:induction false} ReadBlob(bss: seq<seq<byte>>, j: nat, tail: seq<byte>)
    requires j < |bss|
    ensures Read(Flatten(bss) + tail, Position(|Flatten(bss[..j])|, |bss[j]|)) == Ok(bss[j])
  {
    var before, after := Flatten(bss[..j]), Flatten(bss[j + 1..]);
    FlattenAt(bss, j);
    ReadPrefix(Flatten(bss), tail, Position(|before|, |bss[j]|));
    ReadMiddle(before, bss[j], after);
  }

  /** In a file that starts with the partitions' bytes, the range index
      entry j names holds partition j's bytes. */
  lemma {:induction false} PartitionRead(parts: seq<Part>, file: seq<byte>, j: nat)
    requires NonEmptyParts(parts) && j < |parts|
    requires |PartData(parts)| <= |file| && file[..|PartData(parts)|] == PartData(parts)
    ensures Read(file, PartIndex(parts, 0)[j].1) == Ok(EncodePartition(parts[j]))
  {
    var bss := Blobs(parts);
    var data := PartData(parts);
    var tail := file[|data|..];
    LayoutAt(FirstKeys(parts), bss, 0, j);
    assert PartIndex(parts, 0)[j].1 == Position(|Flatten(bss[..j])|, |bss[j]|);
    assert file == data + tail by {
      assert file == file[..|data|] + tail;
    }
    ReadBlob(bss, j, tail);
    BlobAt(parts, j);
  }

  lemma {:induction false} AscendingSlice<V>(ps: seq<(Key, V)>, a: nat, b: nat)
    requires Ascending(KeysOf(ps)) && a <= b <= |ps|
    ensures Ascending(KeysOf(ps[a..b]))
  {
    assert KeysOf(ps[a..b]) == KeysOf(ps)[a..b];
  }

  /** A key between the keys at a and hi can only sit in [a, hi). */
  lemma {:induction false} InSlice<V>(es: seq<(Key, V)>, a: nat, hi: nat, key: Key, e: nat)
    requires Ascending(KeysOf(es)) && a < hi <= |es| && e < |es| && es[e].0 == key
    requires !Less(key, es[a].0) && (hi == |es| || Less(key, es[hi].0))
    ensures a <= e < hi
  {
    if hi <= e {
      AscendingAtMost(KeysOf(es), hi, e);
      AtMostIsNotGreater(es[hi].0, key);
    }
  }

  /** In an ascending list, `ToMap` of a run finds each of its pairs. */
  lemma {:induction false} RunFinds<V>(es: seq<(Key, V)>, a: nat, hi: nat, e: nat)
    requires Ascending(KeysOf(es)) && a <= e < hi <= |es|
    ensures es[e].0 in ToMap(es[a..hi]) && ToMap(es[a..hi])[es[e].0] == es[e].1
  {
    var run := es[a..hi];
    AscendingSlice(es, a, hi);
    ToMapFinds(run, e - a);
    assert run[e - a] == es[e];
  }

  /** A key of the table between the keys at a and hi is in the run
      [a, hi), with the table's record. */
  lemma {:induction false} SliceFinds<V>(m: map<Key, V>, a: nat, hi: nat, key: Key)
    requires a < hi <= |Entries(m)| && key in m
    requires !Less(key, Entries(m)[a].0) && (hi == |Entries(m)| || Less(key, Entries(m)[hi].0))
    ensures key in ToMap(Entries(m)[a..hi]) && ToMap(Entries(m)[a..hi])[key] == m[key]
  {
    var e := EntryOf(m, key);
    EntriesAscending(m);
    InSlice(Entries(m), a, hi, key, e);
    RunFinds(Entries(m), a, hi, e);
  }

  /** A run of the table's entries holds only keys of the table. */
  lemma {:induction false} SliceMisses<V>(m: map<Key, V>, a: nat, hi: nat, key: Key)
    requires a <= hi <= |Entries(m)| && key !in m
    ensures key !in ToMap(Entries(m)[a..hi])
  {
    var es := Entries(m);
    var run := es[a..hi];
    forall i | 0 <= i < |run|
      ensures KeysOf(run)[i] != key
    {
      assert run[i] == es[a + i];
    }
    ToMapKeys(run);
  }

  /** The runs from run j on are the runs of the list from some offset on. */
  lemma {:induction false} DropRuns<T>(xs: seq<T>, n: nat, j: nat) returns (a: nat)
    requires n >= 1 && j < |Chunks(xs, n)|
    ensures a < |xs| && Chunks(xs, n)[j..] == Chunks(xs[a..], n)
    decreases j
  {
    if j == 0 {
      a := 0;
      assert xs[0..] == xs;
    } else {
      var b := DropRuns(xs, n, j - 1);
      var ys := xs[b..];
      assert |Chunks(ys, n)| >= 2;
      assert Chunks(ys, n) == [ys[..n]] + Chunks(ys[n..], n);
      a := b + n;
      assert ys[n..] == xs[a..];
      assert Chunks(xs, n)[j..] == Chunks(xs, n)[j - 1..][1..];
    }
  }

  /** Run j is [a, a + n) cut at the end of the list; the next run, if
      there is one, starts right after it, and otherwise it reaches the end. */
  lemma {:induction false} RunAt(xs: Part, n: nat, j: nat) returns (a: nat, hi: nat)
    requires n >= 1 && j < |Chunks(xs, n)|
    ensures a < hi <= |xs| && Chunks(xs, n)[j] == xs[a..hi]
    ensures j + 1 < |Chunks(xs, n)| ==> hi < |xs| && Chunks(xs, n)[j + 1][0] == xs[hi]
    ensures j + 1 == |Chunks(xs, n)| ==> hi == |xs|
  {
    a := DropRuns(xs, n, j);
    var ys := xs[a..];
    var cs := Chunks(ys, n);
    assert Chunks(xs, n)[j] == cs[0];
    if |ys| <= n {
      hi := |xs|;
      assert |cs| == 1;
    } else {
      hi := a + n;
      assert cs == [ys[..n]] + Chunks(ys[n..], n);
      if j + 1 < |Chunks(xs, n)| {
        assert Chunks(xs, n)[j + 1] == cs[1];
        assert cs[1] == Chunks(ys[n..], n)[0];
        assert Chunks(ys[n..], n)[0][0] == ys[n];
      }
    }
  }

  /** Each run's first key is a key of the list. */
  lemma {:induction false} RunHead(xs: Part, n: nat, i: nat) returns (a: nat)
    requires n >= 1 && i < |Chunks(xs, n)|
    ensures a < |xs| && FirstKeys(Chunks(xs, n))[i] == xs[a].0
  {
    var hi;
    a, hi := RunAt(xs, n, i);
  }

  /** A key below every key of an ascending list heads an ascending list. */
  lemma {:induction false} AscendingCons(k: Key, ks: seq<Key>)
    requires Ascending(ks) && forall i :: 0 <= i < |ks| ==> Less(k, ks[i])
    ensures Ascending([k] + ks)
  {
    var xs := [k] + ks;
    forall a, b | 0 <= a < b < |xs|
      ensures Less(xs[a], xs[b])
    {
      assert xs[b] == ks[b - 1];
      if a > 0 {
        assert xs[a] == ks[a - 1];
      }
    }
  }

  /** The first keys of the runs of an ascending list ascend. */
  lemma {:induction false} FirstKeysAscending(es: Part, n: nat)
    requires n >= 1 && Ascending(KeysOf(es))
    ensures Ascending(FirstKeys(Chunks(es, n)))
    decreases |es|
  {
    if |es| > n {
      var ys := es[n..];
      AscendingSlice(es, n, |es|);
      FirstKeysAscending(ys, n);
      var cs := Chunks(es, n);
      var rest := FirstKeys(Chunks(ys, n));
      assert cs == [es[..n]] + Chunks(ys, n);
      assert cs[1..] == Chunks(ys, n);
      assert FirstKeys(cs) == [es[0].0] + rest;
      forall i | 0 <= i < |rest|
        ensures Less(es[0].0, rest[i])
      {
        var a := RunHead(ys, n, i);
        assert ys[a] == es[n + a];
        assert Less(KeysOf(es)[0], KeysOf(es)[n + a]);
      }
      AscendingCons(es[0].0, rest);
    }
  }

  /** Where the loop stops on the first keys of the runs: the run [a, hi)
      whose first key is at most the key and whose successor's is greater. */
  lemma {:induction false} RunBounds(es: Part, n: nat, j: nat, key: Key) returns (a: nat, hi: nat)
    requires n >= 1 && j < |Chunks(es, n)|
    requires !Less(key, FirstKeys(Chunks(es, n))[j])
    requires j + 1 == |Chunks(es, n)| || Less(key, FirstKeys(Chunks(es, n))[j + 1])
    ensures a < hi <= |es| && Chunks(es, n)[j] == es[a..hi]
    ensures !Less(key, es[a].0) && (hi == |es| || Less(key, es[hi].0))
  {
    a, hi := RunAt(es, n, j);
  }

  /** The partition where the loop stops holds the key exactly when the
      table does, with the table's record. */
  lemma {:induction false} PartitionLookup(table: Table, partitionSize: int, j: nat, key: Key)
    requires StopsAt(PartIndex(Partitions(table, partitionSize), 0), key, j)
    ensures key in ToMap(Partitions(table, partitionSize)[j]) <==> key in table
    ensures key in table ==> ToMap(Partitions(table, partitionSize)[j])[key] == table[key]
  {
    var parts := Partitions(table, partitionSize);
    var idx := PartIndex(parts, 0);
    LayoutKeys(FirstKeys(parts), Blobs(parts), 0);
    assert idx[j].0 == FirstKeys(parts)[j];
    assert j + 1 < |idx| ==> idx[j + 1].0 == FirstKeys(parts)[j + 1];
    var a, hi := RunBounds(Entries(table), Width(partitionSize), j, key);
    if key in table {
      SliceFinds(table, a, hi, key);
    } else {
      SliceMisses(table, a, hi, key);
    }
  }

  /** A key below the first key of a built segment is not in its table. */
  lemma {:induction false} BelowFirstAbsent(table: Table, partitionSize: int, key: Key)
    requires |Partitions(table, partitionSize)| > 0
    requires Less(key, PartIndex(Partitions(table, partitionSize), 0)[0].0)
    ensures key !in table
  {
    var es := Entries(table);
    var parts := Partitions(table, partitionSize);
    LayoutKeys(FirstKeys(parts), Blobs(parts), 0);
    assert PartIndex(parts, 0)[0].0 == KeysOf(PartIndex(parts, 0))[0];
    assert Chunks(es, Width(partitionSize))[0][0] == es[0];
    if key in table {
      var e := EntryOf(table, key);
      EntriesAscending(table);
      AscendingAtMost(KeysOf(es), 0, e);
      AtMostIsNotGreater(es[0].0, key);
    }
  }

  /** `query` reads the range the loop stops at and looks the key up in
      the partition parsed from it. */
  lemma {:induction false} ProbeAt(t: SsTable, key: Key, pos: Position, bytes: seq<byte>, part: Table)
    requires ScanIndex(t.sparseIndex, key) == Partition(pos)
    requires Read(t.file, pos) == Ok(bytes) && DecodePartition(bytes) == Ok(part)
    ensures Probe(t, key) == Ok(if key in part then Some(part[key]) else None)
  {
  }

  /** Where the loop stops in a segment built from a non-empty table. */
  lemma {:induction false} ScanBuilt(table: Table, partitionSize: int, key: Key) returns (j: nat)
    requires table != map[]
    requires !Less(key, PartIndex(Partitions(table, partitionSize), 0)[0].0)
    ensures StopsAt(PartIndex(Partitions(table, partitionSize), 0), key, j)
    ensures ScanIndex(Build(table, partitionSize).sparseIndex, key)
         == Partition(PartIndex(Partitions(table, partitionSize), 0)[j].1)
  {
    var idx := PartIndex(Partitions(table, partitionSize), 0);
    IndexOfBuild(table, partitionSize);
    ScanFromStops(idx, key, 1, idx[0].1);
    j :| 0 <= j < |idx| && StopsAt(idx, key, j) && ScanFrom(idx, key, 1, idx[0].1) == idx[j].1;
  }

  /** A built segment from a non-empty table has at least one partition. */
  lemma {:induction false} SomePartition(table: Table, partitionSize: int)
    requires table != map[]
    ensures |Partitions(table, partitionSize)| > 0
  {
    NoEntries(table);
  }

  /** The main theorem: probing a segment built from a non-empty table
      finds exactly the table's record for the key, tombstones included. */
  lemma {:induction false} ProbeBuilt(table: Table, partitionSize: int, key: Key)
    requires table != map[]
    ensures Probe(Build(table, partitionSize), key) == Ok(if key in table then Some(table[key]) else None)
  {
    var t := Build(table, partitionSize);
    var parts := Partitions(table, partitionSize);
    var idx := PartIndex(parts, 0);
    SomePartition(table, partitionSize);
    if Less(key, idx[0].0) {
      BelowFirstAbsent(table, partitionSize, key);
      IndexOfBuild(table, partitionSize);
      assert ScanIndex(t.sparseIndex, key) == BelowFirst;
    } else {
      var j := ScanBuilt(table, partitionSize, key);
      PartitionRead(parts, t.file, j);
      DecodeEncodedPartition(parts[j]);
      PartitionLookup(table, partitionSize, j, key);
      ProbeAt(t, key, idx[j].1, EncodePartition(parts[j]), ToMap(parts[j]));
    }
  }

  /** `query` on a segment built from a non-empty table gives the table's
      value for a live record and null for a tombstone or a missing key. */
  lemma {:induction false} QueryBuilt(table: Table, partitionSize: int, key: Key)
    requires table != map[]
    ensures Query(Build(table, partitionSize), key)
         == Ok(if key in table then SegmentValue(table[key]) else None)
  {
    ProbeBuilt(table, partitionSize, key);
  }
}
