/** A segment ("SsTable"): an immutable file holding a frozen in-memory
    table as partitions of sorted records, then the sparse index, then the
    footer. `saveFile` writes one, `query` looks a key up through the sparse
    index, `restoreFromFile` reloads the footer and the index of an existing
    file. The file is a byte sequence; a fresh segment file starts empty. */
module SsTable {
  import opened Wrappers
  import opened Bytes
  import opened Keys
  import opened DataModel
  import opened Position
  import opened MetaInfo
  import opened SegmentCodec

  /** The file, the partition size the segment was opened with, and the
      footer and sparse index it keeps in memory. */
  datatype SsTable = SsTable(
    file: seq<byte>,
    partitionSize: int,
    metaInfo: MetaInfo,
    sparseIndex: map<Key, Position>)

  type Part = seq<(Key, Record)>

  // ---- partitioning ----

  /** Entries per partition. A partition is closed as soon as its entry count
      reaches `partitionSize`, so any size below 1 closes it after one entry. */
  function Width(partitionSize: int): (n: nat)
    ensures n >= 1
    ensures partitionSize >= 1 ==> n == partitionSize
    ensures partitionSize < 1 ==> n == 1
  {
    if partitionSize < 1 then 1 else partitionSize
  }

  function Min(a: int, b: int): int {
    if a < b then a else b
  }

  /** Consecutive runs of n elements; the last run may be shorter. */
  function Chunks<T>(xs: seq<T>, n: nat): (cs: seq<seq<T>>)
    requires n >= 1
    ensures forall i :: 0 <= i < |cs| ==> 1 <= |cs[i]| <= n
    decreases |xs|
  {
    if |xs| == 0 then []
    else if |xs| <= n then [xs]
    else [xs[..n]] + Chunks(xs[n..], n)
  }

  lemma {:induction false} MulSucc(i: nat, n: nat)
    requires i > 0
    ensures i * n == (i - 1) * n + n
  {
  }

  lemma {:induction false} SliceShift<T>(xs: seq<T>, n: nat, lo: nat, hi: nat)
    requires n <= |xs| && lo <= hi <= |xs| - n
    ensures xs[n..][lo..hi] == xs[lo + n..hi + n]
  {
  }

  /** Run i is the slice starting at i * n. */
  lemma {:induction false} ChunkSlice<T>(xs: seq<T>, n: nat, i: nat)
    requires n >= 1 && i < |Chunks(xs, n)|
    ensures i * n < |xs|
    ensures Chunks(xs, n)[i] == xs[i * n..Min(i * n + n, |xs|)]
    decreases |xs|
  {
    if i > 0 {
      var a := (i - 1) * n;
      var ys := xs[n..];
      assert Chunks(xs, n)[i] == Chunks(ys, n)[i - 1];
      ChunkSlice(ys, n, i - 1);
      MulSucc(i, n);
      var hi := Min(a + n, |ys|);
      assert hi + n == Min(a + n + n, |xs|);
      SliceShift(xs, n, a, hi);
    }
  }

  /** Every run holds exactly n elements. */
  predicate Full<T>(cs: seq<seq<T>>, n: nat) {
    forall k :: 0 <= k < |cs| ==> |cs[k]| == n
  }

  /** Appending at most one run's worth of elements to whole runs adds
      exactly one run. */
  lemma {:induction false} ChunksSnoc<T>(xs: seq<T>, ys: seq<T>, n: nat)
    requires n >= 1 && Full(Chunks(xs, n), n) && 1 <= |ys| <= n
    ensures Chunks(xs + ys, n) == Chunks(xs, n) + [ys]
    decreases |xs|
  {
    if |xs| > n {
      var cs := Chunks(xs, n);
      assert cs == [xs[..n]] + Chunks(xs[n..], n);
      assert Full(Chunks(xs[n..], n), n) by {
        forall k | 0 <= k < |Chunks(xs[n..], n)|
          ensures |Chunks(xs[n..], n)[k]| == n
        {
          assert Chunks(xs[n..], n)[k] == cs[k + 1];
        }
      }
      assert (xs + ys)[..n] == xs[..n];
      assert (xs + ys)[n..] == xs[n..] + ys;
      ChunksSnoc(xs[n..], ys, n);
    } else if |xs| > 0 {
      assert |Chunks(xs, n)[0]| == n;
      assert (xs + ys)[..n] == xs;
      assert (xs + ys)[n..] == ys;
    } else {
      assert xs + ys == ys;
    }
  }

  /** Slicing facts the partitioning loop relies on. */
  lemma {:induction false} SliceSplit<T>(xs: seq<T>, a: nat, b: nat)
    requires a <= b <= |xs|
    ensures xs[..b] == xs[..a] + xs[a..b]
    ensures b < |xs| ==> xs[a..b + 1] == xs[a..b] + [xs[b]]
  {
  }

  /** Euclidean division is determined by its defining equation. */
  lemma {:induction false} DivUnique(a: int, n: int, q: int, r: int)
    requires n > 0 && a == n * q + r && 0 <= r < n
    ensures a / n == q
  {
    var d := q - a / n;
    assert n * d == a % n - r;
  }

  /** n entries give ceil(n / width) partitions. */
  lemma {:induction false} ChunkCount<T>(xs: seq<T>, n: nat)
    requires n >= 1
    ensures |Chunks(xs, n)| == (|xs| + n - 1) / n
    decreases |xs|
  {
    var a := |xs| + n - 1;
    if |xs| > n {
      ChunkCount(xs[n..], n);
      var b := |xs| - 1;
      DivUnique(a, n, b / n + 1, b % n);
    } else if |xs| > 0 {
      DivUnique(a, n, 1, a - n);
    } else {
      DivUnique(a, n, 0, a);
    }
  }

  // ---- layout of the data section ----

  /** Byte blobs written back to back. */
  function Flatten(bss: seq<seq<byte>>): (bs: seq<byte>) {
    if |bss| == 0 then [] else bss[0] + Flatten(bss[1..])
  }

  /** The index entries for blobs written back to back from `start`: blob i
      is named by key i and occupies the range right after blob i - 1. */
  function Layout(ks: seq<Key>, bss: seq<seq<byte>>, start: int): (es: seq<(Key, Position)>)
    requires |ks| == |bss|
    ensures |es| == |ks|
  {
    if |ks| == 0 then []
    else [(ks[0], Position(start, |bss[0]|))] + Layout(ks[1..], bss[1..], start + |bss[0]|)
  }

  lemma {:induction false} FlattenSnoc(bss: seq<seq<byte>>, b: seq<byte>)
    ensures Flatten(bss + [b]) == Flatten(bss) + b
  {
    if |bss| > 0 {
      assert (bss + [b])[1..] == bss[1..] + [b];
      FlattenSnoc(bss[1..], b);
    }
  }

  lemma {:induction false} LayoutSnoc(ks: seq<Key>, bss: seq<seq<byte>>, k: Key, b: seq<byte>, start: int)
    requires |ks| == |bss|
    ensures Layout(ks + [k], bss + [b], start) == Layout(ks, bss, start) + [(k, Position(start + |Flatten(bss)|, |b|))]
  {
    if |ks| > 0 {
      assert (ks + [k])[1..] == ks[1..] + [k];
      assert (bss + [b])[1..] == bss[1..] + [b];
      LayoutSnoc(ks[1..], bss[1..], k, b, start + |bss[0]|);
    }
  }

  /** Blob i sits after blobs 0..i-1. */
  lemma {:induction false} FlattenAt(bss: seq<seq<byte>>, i: nat)
    requires i < |bss|
    ensures Flatten(bss) == Flatten(bss[..i]) + bss[i] + Flatten(bss[i + 1..])
  {
    if i > 0 {
      FlattenAt(bss[1..], i - 1);
      assert bss[1..][..i - 1] == bss[1..i];
      assert bss[1..][i - 1 + 1..] == bss[i + 1..];
      assert bss[..i] == [bss[0]] + bss[1..i];
    } else {
      assert bss == [bss[0]] + bss[1..];
    }
  }

  /** Entry i names key i and the range of blob i. */
  lemma {:induction false} LayoutAt(ks: seq<Key>, bss: seq<seq<byte>>, start: int, i: nat)
    requires |ks| == |bss| && i < |ks|
    ensures Layout(ks, bss, start)[i] == (ks[i], Position(start + |Flatten(bss[..i])|, |bss[i]|))
  {
    if i > 0 {
      LayoutAt(ks[1..], bss[1..], start + |bss[0]|, i - 1);
      assert bss[1..][..i - 1] == bss[1..i];
      assert bss[..i] == [bss[0]] + bss[1..i];
    }
  }

  predicate NonEmptyParts(parts: seq<Part>) {
    forall i :: 0 <= i < |parts| ==> |parts[i]| > 0
  }

  /** Each partition's encoding. */
  function Blobs(parts: seq<Part>): (bss: seq<seq<byte>>)
    ensures |bss| == |parts|
  {
    if |parts| == 0 then []
    else Blobs(parts[..|parts| - 1]) + [EncodePartition(parts[|parts| - 1])]
  }

  /** Each partition's first key. */
  function FirstKeys(parts: seq<Part>): (ks: seq<Key>)
    requires NonEmptyParts(parts)
    ensures |ks| == |parts|
    ensures forall i :: 0 <= i < |parts| ==> ks[i] == parts[i][0].0
  {
    if |parts| == 0 then [] else [parts[0][0].0] + FirstKeys(parts[1..])
  }

  /** The partitions' bytes, back to back. */
  function PartData(parts: seq<Part>): seq<byte> {
    Flatten(Blobs(parts))
  }

  /** The sparse index entries: each partition's first key and the byte range
      its encoding occupies, the first one starting at `start`. */
  function PartIndex(parts: seq<Part>, start: int): (es: seq<(Key, Position)>)
    requires NonEmptyParts(parts)
    ensures |es| == |parts|
  {
    Layout(FirstKeys(parts), Blobs(parts), start)
  }

  lemma {:induction false} PartsSnoc(parts: seq<Part>, p: Part)
    requires NonEmptyParts(parts) && |p| > 0
    ensures NonEmptyParts(parts + [p])
    ensures Blobs(parts + [p]) == Blobs(parts) + [EncodePartition(p)]
    ensures FirstKeys(parts + [p]) == FirstKeys(parts) + [p[0].0]
  {
    assert (parts + [p])[..|parts|] == parts;
  }

  lemma {:induction false} PartsPrefix(parts: seq<Part>, i: nat)
    requires i <= |parts|
    ensures Blobs(parts[..i]) == Blobs(parts)[..i]
    decreases |parts|
  {
    if i < |parts| {
      var init := parts[..|parts| - 1];
      PartsPrefix(init, i);
      assert init[..i] == parts[..i];
    } else {
      assert parts[..i] == parts;
    }
  }

  /** Blob i is partition i's encoding. */
  lemma {:induction false} BlobAt(parts: seq<Part>, i: nat)
    requires i < |parts|
    ensures Blobs(parts)[i] == EncodePartition(parts[i])
  {
    PartsPrefix(parts, i + 1);
    assert parts[..i + 1][..i] == parts[..i];
  }

  // ---- saveFile ----

  /** `savePart`: append the partition's bytes at the end of the file and, when
      the partition has a first key, index it by the range just written. */
  function SavePart(file: seq<byte>, sparse: map<Key, Position>, part: Part)
    : (r: (seq<byte>, map<Key, Position>))
    ensures |r.0| == |file| + |EncodePartition(part)|
    ensures |part| == 0 ==> r.1 == sparse
    ensures |part| > 0 ==> r.1 == sparse[part[0].0 := Position(|file|, |r.0| - |file|)]
  {
    var bytes := EncodePartition(part);
    var start := |file|;
    (file + bytes, if |part| > 0 then sparse[part[0].0 := Position(start, |bytes|)] else sparse)
  }

  /** `savePart` keeps the bytes already written, puts the partition's
      bytes after them, and the range it indexes reads back exactly those. */
  lemma {:induction false} SavePartReadsBack(file: seq<byte>, sparse: map<Key, Position>, part: Part)
    ensures SavePart(file, sparse, part).0[..|file|] == file
    ensures SavePart(file, sparse, part).0[|file|..] == EncodePartition(part)
    ensures |part| > 0 ==>
      Read(SavePart(file, sparse, part).0, SavePart(file, sparse, part).1[part[0].0])
        == Ok(EncodePartition(part))
  {
    var r := SavePart(file, sparse, part);
    assert r.0 == file + EncodePartition(part);
    assert r.0[|file|..|r.0|] == EncodePartition(part);
  }

  /** The partitions `saveFile` cuts a table into. */
  function Partitions(table: Table, partitionSize: int): (parts: seq<Part>)
    ensures NonEmptyParts(parts)
  {
    Chunks(Entries(table), Width(partitionSize))
  }

  /** The second half of `saveFile`: the sparse index written right after
      the data section, then the footer describing both (its partSize is
      never assigned and stays 0). */
  function Seal(data: seq<byte>, sparse: map<Key, Position>, partitionSize: int): (t: SsTable)
    ensures t.partitionSize == partitionSize && t.sparseIndex == sparse
    ensures t.metaInfo.partSize == 0 && t.metaInfo.dataStart == 0
    ensures t.metaInfo.dataStart + t.metaInfo.dataLength == t.metaInfo.sparseStart
    ensures t.metaInfo.sparseStart + t.metaInfo.sparseLength + FooterSize == |t.file|
    ensures t.metaInfo.dataLength == |data| <= |t.file| && t.file[..|data|] == data
  {
    var dataStart := 0;
    var sparseBytes := EncodeIndex(sparse);
    var meta := MetaInfo(0, |data|, dataStart, |sparseBytes|, dataStart + |data|);
    SsTable(data + sparseBytes + EncodeFooter(meta), partitionSize, meta, sparse)
  }

  /** The segment a fresh file holds once `saveFile(table)` has run: the
      partitions from offset 0, then the sparse index and the footer. */
  function Build(table: Table, partitionSize: int): SsTable {
    var parts := Partitions(table, partitionSize);
    Seal(PartData(parts), ToMap(PartIndex(parts, 0)), partitionSize)
  }

  /** Saving one more partition after the ones already laid out extends the
      file by its bytes and the index by its first key and range. */
  lemma {:induction false} SavePartStep(parts: seq<Part>, part: Part)
    requires NonEmptyParts(parts) && |part| > 0
    ensures NonEmptyParts(parts + [part])
    ensures SavePart(PartData(parts), ToMap(PartIndex(parts, 0)), part)
         == (PartData(parts + [part]), ToMap(PartIndex(parts + [part], 0)))
  {
    PartsSnoc(parts, part);
    FlattenSnoc(Blobs(parts), EncodePartition(part));
    LayoutSnoc(FirstKeys(parts), Blobs(parts), part[0].0, EncodePartition(part), 0);
    var es := PartIndex(parts, 0);
    var e := (part[0].0, Position(|PartData(parts)|, |EncodePartition(part)|));
    assert (es + [e])[..|es + [e]| - 1] == es;
  }

  /** Saving one more partition continues from what the earlier ones left. */
  lemma {:induction false} SaveStep(file: seq<byte>, sparse: map<Key, Position>, parts: seq<Part>, part: Part)
    requires (file, sparse) == Saved(parts)
    ensures SavePart(file, sparse, part) == Saved(parts + [part])
  {
    assert (parts + [part])[..|parts|] == parts;
  }

  /** Taking entry i into the pending partition; once it holds n entries
      it is the next whole partition. */
  lemma {:induction false} Advance(es: Part, done: nat, i: nat, n: nat, parts: seq<Part>, part: Part)
    requires n >= 1 && done <= i < |es| && i - done < n && part == es[done..i]
    requires parts == Chunks(es[..done], n) && Full(parts, n)
    ensures part + [es[i]] == es[done..i + 1]
    ensures |part + [es[i]]| <= n
    ensures |part + [es[i]]| == n ==>
      Chunks(es[..i + 1], n) == parts + [part + [es[i]]] && Full(parts + [part + [es[i]]], n)
  {
    SliceSplit(es, done, i);
    if i + 1 - done == n {
      SliceSplit(es, done, i + 1);
      ChunksSnoc(es[..done], es[done..i + 1], n);
    }
  }

  /** After the last entry, a non-empty pending partition is the last one. */
  lemma {:induction false} Finish(es: Part, done: nat, n: nat, parts: seq<Part>, part: Part)
    requires n >= 1 && done <= |es| && |es| - done < n && part == es[done..]
    requires parts == Chunks(es[..done], n) && Full(parts, n)
    ensures Chunks(es, n) == if |part| > 0 then parts + [part] else parts
  {
    SliceSplit(es, done, |es|);
    assert es[..|es|] == es;
    if |part| > 0 {
      ChunksSnoc(es[..done], part, n);
    }
  }

  /** The file and sparse index after `savePart` has run on each partition
      in turn, starting from an empty file. */
  function Saved(parts: seq<Part>): (seq<byte>, map<Key, Position>) {
    if |parts| == 0 then ([], map[])
    else
      var prev := Saved(parts[..|parts| - 1]);
      SavePart(prev.0, prev.1, parts[|parts| - 1])
  }

  /** Saving the partitions one by one lays out the data section and the
      sparse index as `PartData` and `PartIndex` describe. */
  lemma {:induction false} SavedLayout(parts: seq<Part>)
    requires NonEmptyParts(parts)
    ensures Saved(parts) == (PartData(parts), ToMap(PartIndex(parts, 0)))
    decreases |parts|
  {
    if |parts| > 0 {
      var init := parts[..|parts| - 1];
      var last := parts[|parts| - 1];
      assert init + [last] == parts;
      SavedLayout(init);
      SaveStep(PartData(init), ToMap(PartIndex(init, 0)), init, last);
      SavePartStep(init, last);
    }
  }

  /** The loop of `saveFile`: walk the entries in order, collecting them
      into a pending partition and saving it each time it reaches
      `partitionSize` entries. Returns the pending remainder too. */
  method SaveFullParts(es: Part, partitionSize: int)
    returns (file: seq<byte>, sparse: map<Key, Position>, part: Part, ghost parts: seq<Part>, ghost done: nat)
    ensures done <= |es| && |es| - done < Width(partitionSize) && part == es[done..]
    ensures |part| < Width(partitionSize) && part == es[|es| - |part|..]
    ensures parts == Chunks(es[..done], Width(partitionSize)) && Full(parts, Width(partitionSize))
    ensures (file, sparse) == Saved(parts)
  {
    ghost var n := Width(partitionSize);
    file, sparse := [], map[];
    part := [];
    parts := [];
    done := 0;
    var i := 0;
    while i < |es|
      invariant 0 <= done <= i <= |es| && i - done < n
      invariant part == es[done..i]
      invariant parts == Chunks(es[..done], n) && Full(parts, n)
      invariant (file, sparse) == Saved(parts)
    {
      Advance(es, done, i, n, parts, part);
      part := part + [es[i]];
      if |part| >= partitionSize {
        SaveStep(file, sparse, parts, part);
        var saved := SavePart(file, sparse, part);
        file, sparse := saved.0, saved.1;
        parts := parts + [part];
        part := [];
        done := i + 1;
      }
      i := i + 1;
    }
    assert |es| - |part| == done;
  }

  /** The data-section half of `saveFile`: the loop, then a non-empty
      remainder saved as the last partition. */
  method SaveParts(es: Part, partitionSize: int) returns (file: seq<byte>, sparse: map<Key, Position>)
    ensures (file, sparse) == Saved(Chunks(es, Width(partitionSize)))
  {
    var part;
    ghost var parts, done;
    file, sparse, part, parts, done := SaveFullParts(es, partitionSize);
    Finish(es, done, Width(partitionSize), parts, part);
    if |part| > 0 {
      assert (parts + [part])[..|parts|] == parts;
      var saved := SavePart(file, sparse, part);
      file, sparse := saved.0, saved.1;
    }
  }

  /** `saveFile` on a fresh file: the partitions from offset 0, then the
      sparse index, then the footer. */
  method SaveFile(index: Table, partitionSize: int) returns (t: SsTable)
    ensures t == Build(index, partitionSize)
  {
    var data, sparse := SaveParts(Entries(index), partitionSize);
    SavedLayout(Partitions(index, partitionSize));
    t := Seal(data, sparse, partitionSize);
  }

  // ---- query ----

  /** What the sparse-index loop of `query` ends with: an early return when
      the first indexed key is already greater than the key, a null
      `lastSmall` when the index is empty, or the range of the last partition
      whose first key is at most the key. */
  datatype Floor = BelowFirst | NoIndex | Partition(pos: Position)

  /** The loop from entry i on, `last` being the range of the last entry seen
      whose key is at most the key; the first greater key ends it. */
  function ScanFrom(es: seq<(Key, Position)>, key: Key, i: nat, last: Position): (r: Position)
    requires i <= |es|
    ensures r == last || exists j :: i <= j < |es| && r == es[j].1
    decreases |es| - i
  {
    if i == |es| || Less(key, es[i].0) then last
    else ScanFrom(es, key, i + 1, es[i].1)
  }

  /** The loop over the sparse index in ascending key order. */
  function ScanIndex(index: map<Key, Position>, key: Key): (f: Floor)
    ensures f == NoIndex <==> index == map[]
    ensures f.Partition? ==> exists k :: k in index && index[k] == f.pos
  {
    var es := Entries(index);
    if |es| == 0 then NoIndex
    else if Less(key, es[0].0) then BelowFirst
    else
      var pos := ScanFrom(es, key, 1, es[0].1);
      assert exists k :: k in index && index[k] == pos by {
        if pos != es[0].1 {
          var j :| 1 <= j < |es| && pos == es[j].1;
          assert es[j].0 in index && index[es[j].0] == pos;
        }
      }
      Partition(pos)
  }

  /** Reading one partition: `seek`, fill `new byte[length]`, parse the
      partition and look the key up in it. */
  function ReadPartition(file: seq<byte>, pos: Position, key: Key): Result<Option<Record>> {
    var bytes :- Read(file, pos);
    var part :- DecodePartition(bytes);
    Ok(if key in part then Some(part[key]) else None)
  }

  /** `query` up to the record it finds: read the partition the sparse index
      points at and look the key up in it. */
  function Probe(t: SsTable, key: Key): (r: Result<Option<Record>>)
    ensures t.sparseIndex == map[] ==> r == Err(NullPointer)
    ensures r.Ok? && r.value.Some? ==>
      exists k :: k in t.sparseIndex && ReadPartition(t.file, t.sparseIndex[k], key) == r
  {
    match ScanIndex(t.sparseIndex, key)
    case BelowFirst => Ok(None)
    case NoIndex => Err(NullPointer)
    case Partition(pos) => ReadPartition(t.file, pos, key)
  }

  /** `query`: the value of the record found, null for a missing key and
      for a record whose flag is 1. */
  function Query(t: SsTable, key: Key): (r: Result<Option<string>>)
    ensures r.Ok? <==> Probe(t, key).Ok?
    ensures Probe(t, key) == Ok(None) ==> r == Ok(None)
    ensures r.Ok? && r.value.Some? ==>
      && Probe(t, key).value.Some? && Probe(t, key).value.value.delete != 1
      && Probe(t, key).value.value.value == r.value
  {
    var found :- Probe(t, key);
    Ok(if found.Some? then SegmentValue(found.value) else None)
  }

  // ---- restoreFromFile ----

  /** `restoreFromFile`: the footer, then the sparse index from the range the
      footer names. The file and the partition size are kept. */
  function RestoreFromFile(file: seq<byte>, partitionSize: int): (r: Result<SsTable>)
    ensures |file| < FooterSize ==> r == Err(NegativeSeek)
    ensures r.Ok? ==> r.value.file == file && r.value.partitionSize == partitionSize
    ensures r.Ok? ==> ReadFooter(file) == Ok(r.value.metaInfo)
    ensures r.Ok? ==>
      var range := Position(r.value.metaInfo.sparseStart, r.value.metaInfo.sparseLength);
      Read(file, range).Ok? && DecodeIndex(Read(file, range).value) == Ok(r.value.sparseIndex)
  {
    var meta :- ReadFooter(file);
    var bytes :- Read(file, Position(meta.sparseStart, meta.sparseLength));
    var index :- DecodeIndex(bytes);
    Ok(SsTable(file, partitionSize, meta, index))
  }
}
