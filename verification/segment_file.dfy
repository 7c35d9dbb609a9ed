/** The shape of a segment file `saveFile` writes, reading it back with
    `restoreFromFile`, and the worked example of a five-key table. */
module SegmentFile {
  import opened Wrappers
  import opened Bytes
  import opened Keys
  import opened DataModel
  import opened Position
  import opened MetaInfo
  import opened SegmentCodec
  import opened SsTable
  import opened SegmentLookup

  // ---- the ranges of the sparse index ----

  /** Blobs laid out back to back: the first range starts at `start`, each
      next one starts where the previous one ends, and the last one ends
      after all the bytes. */
  lemma {:induction false} LayoutContiguous(ks: seq<Key>, bss: seq<seq<byte>>, start: int)
    requires |ks| == |bss|
    ensures |ks| > 0 ==> Layout(ks, bss, start)[0].1.start == start
    ensures forall i :: 0 <= i < |ks| - 1 ==>
      Layout(ks, bss, start)[i + 1].1.start == Layout(ks, bss, start)[i].1.End()
    ensures |ks| > 0 ==> Layout(ks, bss, start)[|ks| - 1].1.End() == start + |Flatten(bss)|
    decreases |ks|
  {
    if |ks| > 0 {
      var es := Layout(ks, bss, start);
      var tail := Layout(ks[1..], bss[1..], start + |bss[0]|);
      LayoutContiguous(ks[1..], bss[1..], start + |bss[0]|);
      assert es == [es[0]] + tail;
      forall i | 0 <= i < |ks| - 1
        ensures es[i + 1].1.start == es[i].1.End()
      {
        assert es[i + 1] == tail[i];
        if i > 0 {
          assert es[i] == tail[i - 1];
        }
      }
      if |ks| > 1 {
        assert es[|ks| - 1] == tail[|ks| - 2];
      }
    }
  }

  /** Each range lies inside the bytes laid out. */
  lemma {:induction false} LayoutInside(ks: seq<Key>, bss: seq<seq<byte>>, start: int, i: nat)
    requires |ks| == |bss| && i < |ks|
    ensures start <= Layout(ks, bss, start)[i].1.start
    ensures 0 <= Layout(ks, bss, start)[i].1.length
    ensures Layout(ks, bss, start)[i].1.End() <= start + |Flatten(bss)|
  {
    LayoutAt(ks, bss, start, i);
    FlattenAt(bss, i);
  }

  /** In a built segment the first partition starts at `dataStart`, each next
      one where the previous one ends, and the last one ends where the sparse
      index starts. */
  lemma {:induction false} BuiltRangesContiguous(table: Table, partitionSize: int)
    ensures var t := Build(table, partitionSize);
      var idx := PartIndex(Partitions(table, partitionSize), 0);
      && (|idx| > 0 ==> idx[0].1.start == t.metaInfo.dataStart)
      && (forall i :: 0 <= i < |idx| - 1 ==> idx[i + 1].1.start == idx[i].1.End())
      && (|idx| > 0 ==> idx[|idx| - 1].1.End() == t.metaInfo.sparseStart)
  {
    var parts := Partitions(table, partitionSize);
    LayoutContiguous(FirstKeys(parts), Blobs(parts), 0);
  }

  /** Every range of a built segment's sparse index lies in its data section. */
  lemma {:induction false} BuiltRangesInside(table: Table, partitionSize: int, k: Key)
    requires k in Build(table, partitionSize).sparseIndex
    ensures var t := Build(table, partitionSize);
      && t.metaInfo.dataStart <= t.sparseIndex[k].start
      && 0 <= t.sparseIndex[k].length
      && t.sparseIndex[k].End() <= t.metaInfo.sparseStart
  {
    var t := Build(table, partitionSize);
    var parts := Partitions(table, partitionSize);
    IndexOfBuild(table, partitionSize);
    var i := EntryOf(t.sparseIndex, k);
    LayoutInside(FirstKeys(parts), Blobs(parts), 0, i);
  }

  // ---- restoreFromFile ----

  /** A file shorter than the footer cannot be restored. */
  lemma {:induction false} RestoreShortFile(file: seq<byte>, partitionSize: int)
    requires |file| < FooterSize
    ensures RestoreFromFile(file, partitionSize) == Err(NegativeSeek)
  {
  }

  /** The sparse index and footer `saveFile` writes after any data section
      read back as the segment held them, as long as every offset fits in a
      Java long. */
  lemma {:induction false} SealRestores(data: seq<byte>, sparse: map<Key, Position>, partitionSize: int)
    requires forall k :: k in sparse ==> IsLong(sparse[k].start) && IsLong(sparse[k].length)
    requires |Seal(data, sparse, partitionSize).file| < 0x8000_0000_0000_0000
    ensures RestoreFromFile(Seal(data, sparse, partitionSize).file, partitionSize)
         == Ok(Seal(data, sparse, partitionSize))
  {
    var t := Seal(data, sparse, partitionSize);
    var sparseBytes := EncodeIndex(sparse);
    var meta := t.metaInfo;
    assert t.file == data + sparseBytes + EncodeFooter(meta);
    FooterRoundTrip(data + sparseBytes, meta);
    ReadMiddle(data, sparseBytes, EncodeFooter(meta));
    IndexRoundTrip(sparse);
  }

  /** Restoring a segment `saveFile` wrote gives back the segment, footer and
      sparse index included. */
  lemma {:induction false} RestoreBuilt(table: Table, partitionSize: int)
    requires |Build(table, partitionSize).file| < 0x8000_0000_0000_0000
    ensures RestoreFromFile(Build(table, partitionSize).file, partitionSize) == Ok(Build(table, partitionSize))
  {
    var t := Build(table, partitionSize);
    forall k | k in t.sparseIndex
      ensures IsLong(t.sparseIndex[k].start) && IsLong(t.sparseIndex[k].length)
    {
      BuiltRangesInside(table, partitionSize, k);
    }
    var parts := Partitions(table, partitionSize);
    SealRestores(PartData(parts), ToMap(PartIndex(parts, 0)), partitionSize);
  }

  // ---- a worked example ----

  /** Five keys put in the order b, c, a, f, d, each with a live record. */
  function Example(): Table {
    map["b" := NewValue("b", "2"), "c" := NewValue("c", "3"), "a" := NewValue("a", "1"),
        "f" := NewValue("f", "6"), "d" := NewValue("d", "4")]
  }

  lemma {:induction false} LessByFirst(a: Key, b: Key)
    requires |a| > 0 && |b| > 0 && a[0] < b[0]
    ensures Less(a, b)
  {
  }

  lemma {:induction false} ExampleAscending()
    ensures Ascending(["a", "b", "c", "d", "f"])
  {
    var ks := ["a", "b", "c", "d", "f"];
    forall i, j | 0 <= i < j < |ks|
      ensures Less(ks[i], ks[j])
    {
      LessByFirst(ks[i], ks[j]);
    }
  }

  /** `entrySet()` visits the example's keys in the order a, b, c, d, f. */
  lemma {:induction false} ExampleKeyOrder()
    ensures KeysOf(Entries(Example())) == ["a", "b", "c", "d", "f"]
  {
    var ks := KeysOf(Entries(Example()));
    EntriesAscending(Example());
    ExampleAscending();
    assert forall k :: k in ks <==> k in ["a", "b", "c", "d", "f"];
    AscendingUnique(ks, ["a", "b", "c", "d", "f"]);
  }

  /** Five entries in runs of two: two full runs and a last run of one. */
  lemma {:induction false} ChunksOfFive<T>(xs: seq<T>)
    requires |xs| == 5
    ensures Chunks(xs, 2) == [xs[..2], xs[2..4], xs[4..]]
  {
    assert Chunks(xs[4..], 2) == [xs[4..]];
    assert xs[2..][..2] == xs[2..4] && xs[2..][2..] == xs[4..];
    assert Chunks(xs[2..], 2) == [xs[2..4]] + Chunks(xs[4..], 2);
    assert Chunks(xs, 2) == [xs[..2]] + Chunks(xs[2..], 2);
  }

  /** Runs of two over entries with the keys a, b, c, d, f. */
  lemma {:induction false} FiveRuns(es: Part)
    requires KeysOf(es) == ["a", "b", "c", "d", "f"]
    ensures |Chunks(es, 2)| == 3
    ensures KeysOf(Chunks(es, 2)[0]) == ["a", "b"]
    ensures KeysOf(Chunks(es, 2)[1]) == ["c", "d"]
    ensures KeysOf(Chunks(es, 2)[2]) == ["f"]
    ensures FirstKeys(Chunks(es, 2)) == ["a", "c", "f"]
  {
    var ks := KeysOf(es);
    ChunksOfFive(es);
    KeysOfSlice(es, 0, 2);
    KeysOfSlice(es, 2, 4);
    KeysOfSlice(es, 4, 5);
    assert es[0..2] == es[..2] && es[4..5] == es[4..];
  }

  /** The keys of a run are the run of the keys. */
  lemma {:induction false} KeysOfSlice<V>(ps: seq<(Key, V)>, a: nat, b: nat)
    requires a <= b <= |ps|
    ensures KeysOf(ps[a..b]) == KeysOf(ps)[a..b]
  {
  }

  /** With two entries per partition the five keys are cut into [a, b],
      [c, d] and [f]. */
  lemma {:induction false} ExamplePartitions(table: Table)
    requires table == Example()
    ensures |Partitions(table, 2)| == 3
    ensures KeysOf(Partitions(table, 2)[0]) == ["a", "b"]
    ensures KeysOf(Partitions(table, 2)[1]) == ["c", "d"]
    ensures KeysOf(Partitions(table, 2)[2]) == ["f"]
    ensures FirstKeys(Partitions(table, 2)) == ["a", "c", "f"]
  {
    ExampleKeyOrder();
    FiveRuns(Entries(table));
  }

  /** The map built from three pairs holds their three keys. */
  lemma {:induction false} ThreeKeys<V>(ps: seq<(Key, V)>, a: Key, b: Key, c: Key)
    requires KeysOf(ps) == [a, b, c]
    ensures ToMap(ps).Keys == {a, b, c}
  {
    ToMapKeys(ps);
    forall k
      ensures k in ToMap(ps).Keys <==> k in {a, b, c}
    {
      assert k in KeysOf(ps) <==> k in [a, b, c];
    }
  }

  /** The sparse index of the example segment holds a, c and f. */
  lemma {:induction false} ExampleIndex(table: Table)
    requires table == Example()
    ensures Build(table, 2).sparseIndex.Keys == {"a", "c", "f"}
  {
    var parts := Partitions(table, 2);
    assert KeysOf(PartIndex(parts, 0)) == ["a", "c", "f"] by {
      ExamplePartitions(table);
      LayoutKeys(FirstKeys(parts), Blobs(parts), 0);
    }
    ThreeKeys(PartIndex(parts, 0), "a", "c", "f");
  }
}
