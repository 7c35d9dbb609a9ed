# chinadb in Dafny

A model of the core of chinadb, a small log-structured key-value store
written in Java, with proofs about it.

The store keeps its data in four places:

- **The current table.** An in-memory `TreeMap` from key to `DataModel`
  record. A record holds a key, a value and a `delete` flag.
- **A write-ahead log.** Every `set` and `del` appends a frame to it: a
  4-byte length, then the serialised record.
- **The immutable table.** Once the current table holds `tableSize` keys,
  it is swapped out and becomes the immutable table.
- **Segments.** Each swapped-out table is written to a segment file
  (an "SsTable"). The file holds the records in partitions of
  `partitionSize` entries, then a sparse index from the first key of each
  partition to its byte range, then a five-long footer (`MetaInfo`).

`get` reads in this order:

1. the current table;
2. the immutable table;
3. the segments, newest first. In a segment it uses the sparse index to
   find the one partition that can hold the key.

On start-up `restoreByWal` replays the log into the current table. A
segment reloads its footer and sparse index with `restoreFromFile`.
`execute` parses a command line into `set`, `get` or `del`.

The modules follow the source:

- `Keys`: string order (`compareTo`) and `TreeMap` as a map plus its
  ascending entry list.
- `Bytes`: `writeInt`/`writeLong` and their readers.
- `DataModel`: the record and its two read rules.
- `Position`: a byte range and how it is read.
- `MetaInfo`: the footer.
- `SegmentCodec`: the bytes of a partition and of the sparse index.
- `SsTable`: `saveFile`, `savePart`, `query` and `restoreFromFile`.
- `SegmentLookup`: what `query` finds in a segment `saveFile` wrote.
- `SegmentFile`: the file layout, restoring it, and a worked example.
- `Wal`: log frames and `restoreByWal`.
- `ChinaDB`: `set`, `del`, the swap and `get`, plus the store invariant.
- `Command`: `execute` and `processQuotation`.

The central results:

- **Segment lookup.** A segment built from a non-empty table answers every
  key exactly as the table does (`SegmentLookup.ProbeBuilt`).
- **Segment files.** A segment file restores to the segment that was
  written (`SegmentFile.RestoreBuilt`).
- **Log replay.** Replaying a log rebuilds the table with last-write-wins
  (`Wal.RestoreLastWins`).
- **Reads.** After any run of `set` and `del` commands, the corrected `get`
  returns the value of the last command naming the key. It returns null
  after a `del` (`ChinaDB.LatestWins`). The `get` as written does not
  always do this: see Findings.

Two behaviours of the code differ from what a reader might expect, and the
model follows the code:

- **A truncated log is an error.** When the last frame of the log is cut
  short, replay fails (`EndOfFile` or `Malformed`). It does not silently
  keep the complete frames.
- **Quotes do not protect spaces.** A command line is split at spaces
  before quotes are looked at, so a quoted argument cannot hold a space.
  `set "a b" c` is a syntax error (`Command.QuotedSpaceSplits`).

## Model

| member | source | states |
|---|---|---|
| Keys.LessIrreflexive | src/main/java/com/lsmt/component/SsTable.java:143-148 | no key is `compareTo`-less than itself |
| Keys.LessTransitive | src/main/java/com/lsmt/component/SsTable.java:143-148 | the key order is transitive |
| Keys.LessTotal | src/main/java/com/lsmt/component/SsTable.java:143-148 | any two distinct keys are ordered one way or the other |
| Keys.SortedKeys | src/main/java/com/lsmt/component/SsTable.java:91 | lists exactly the keys of a set, each once, in ascending order |
| Keys.Entries | src/main/java/com/lsmt/component/SsTable.java:91 | `entrySet()` lists one pair per key of the map, with that key's value |
| Keys.EntriesAscending | src/main/java/com/lsmt/component/SsTable.java:91 | `entrySet()` visits keys in strictly ascending order |
| Keys.ToMapOfEntries | src/main/java/com/lsmt/component/SsTable.java:185-187 | putting a map's entries back, in order, gives the same map |
| Keys.EntriesOfToMap | src/main/java/com/lsmt/component/SsTable.java:185-187 | a map built from an ascending list lists that list again |
| Bytes.IntRoundTrip | src/main/java/com/lsmt/service/ChinaDB.java:130 | `readInt` returns every Java int that `writeInt` wrote |
| Bytes.LongRoundTrip | src/main/java/com/lsmt/component/MetaInfo.java:36-58 | `readLong` returns every Java long that `writeLong` wrote |
| Bytes.StringRoundTrip | src/main/java/com/lsmt/service/ChinaDB.java:134 | a serialised string parses back to itself, whatever follows it |
| Bytes.WriteInt | src/main/java/com/lsmt/service/ChinaDB.java:210 | the four bytes are the low 32 bits of the value, big-endian |
| Bytes.ReadInt | src/main/java/com/lsmt/service/ChinaDB.java:130 | the result is the Java int whose low 32 bits are the four bytes read big-endian |
| Bytes.WriteLong | src/main/java/com/lsmt/component/MetaInfo.java:36-40 | the eight bytes are the low 64 bits of the value, big-endian |
| Bytes.ReadLong | src/main/java/com/lsmt/component/MetaInfo.java:49-58 | the result is the Java long whose low 64 bits are the eight bytes read big-endian |
| DataModel.NewValue | src/main/java/com/lsmt/model/DataModel.java:20-23 | the two-argument constructor makes a record that both read rules see as live with its value |
| DataModel.WithFlag | src/main/java/com/lsmt/model/DataModel.java:25-28 | the flag constructor stores the key and the flag and leaves the value null, so both read rules see nothing |
| DataModel.Tombstone | src/main/java/com/lsmt/service/ChinaDB.java:225 | `del` writes the key with flag 1 and no value |
| DataModel.ReadRulesAgree | src/main/java/com/lsmt/component/SsTable.java:166 | the table rule (`delete == 0` is live) and the segment rule (`delete == 1` is deleted) agree on flags 0 and 1 |
| DataModel.ReadRulesDisagreeOtherwise | src/main/java/com/lsmt/service/ChinaDB.java:274 | they disagree on any other flag that carries a value |
| DataModel.RecordRoundTrip | src/main/java/com/lsmt/service/ChinaDB.java:134 | a serialised record parses back to the same key, value and flag |
| Position.Read | src/main/java/com/lsmt/component/SsTable.java:155-157 | reading a range succeeds exactly when it lies inside the file; it then gives that range's bytes |
| Position.ReadMiddle | src/main/java/com/lsmt/component/SsTable.java:181-183 | the range after a prefix reads back the bytes written there |
| MetaInfo.EncodeFooter | src/main/java/com/lsmt/component/MetaInfo.java:34-44 | the footer is 40 bytes: five longs in field order |
| MetaInfo.ReadFooter | src/main/java/com/lsmt/component/MetaInfo.java:46-63 | reading succeeds exactly when the file holds 40 bytes, and each of the five fields is the long at its own offset from the end; a shorter file makes a seek negative |
| MetaInfo.FooterRoundTrip | src/main/java/com/lsmt/component/MetaInfo.java:34-63 | a footer written after any bytes reads back unchanged |
| SegmentCodec.PartitionRoundTrip | src/main/java/com/lsmt/component/SsTable.java:123 | a partition's bytes parse back to its entries |
| SegmentCodec.DecodeEncodedPartition | src/main/java/com/lsmt/component/SsTable.java:158-160 | parsing a partition gives the map of its entries |
| SegmentCodec.IndexRoundTrip | src/main/java/com/lsmt/component/SsTable.java:182-187 | a sparse index whose positions fit in longs survives being written and parsed |
| SsTable.Width | src/main/java/com/lsmt/component/SsTable.java:94 | a partition closes at `partitionSize` entries, or after one entry when that size is below 1 |
| SsTable.ChunkCount | src/main/java/com/lsmt/component/SsTable.java:91-102 | n entries give ceil(n / width) partitions |
| SsTable.Partitions | src/main/java/com/lsmt/component/SsTable.java:91-102 | every partition `saveFile` cuts holds at least one entry |
| SsTable.SavePartStep | src/main/java/com/lsmt/component/SsTable.java:122-131 | `savePart` appends the partition's bytes and indexes its first key at the range just written |
| SsTable.SavePart | src/main/java/com/lsmt/component/SsTable.java:122-131 | the file grows by the partition's bytes; a non-empty partition indexes its first key at the range just appended and leaves every other index entry alone; an empty one changes no index entry |
| SsTable.SavePartReadsBack | src/main/java/com/lsmt/component/SsTable.java:122-131 | the bytes already written stay, the partition's bytes follow them, and the range indexed reads back exactly those bytes |
| SsTable.SavedLayout | src/main/java/com/lsmt/component/SsTable.java:91-102 | saving partitions one at a time gives the data section and index the layout describes |
| SsTable.SaveFullParts | src/main/java/com/lsmt/component/SsTable.java:91-98 | the loop saves every full partition and leaves fewer than `partitionSize` entries pending |
| SsTable.SaveParts | src/main/java/com/lsmt/component/SsTable.java:99-102 | a non-empty remainder becomes the last partition |
| SsTable.Seal | src/main/java/com/lsmt/component/SsTable.java:103-111 | the index follows the data and the footer follows the index; the lengths add up to the file; partSize stays 0 |
| SsTable.SaveFile | src/main/java/com/lsmt/component/SsTable.java:86-117 | the loop-based `saveFile` writes the segment that `Build` describes |
| SsTable.ScanIndex | src/main/java/com/lsmt/component/SsTable.java:139-153 | the index loop ends without a range exactly when the index is empty; any range it ends with is one the index holds |
| SsTable.Probe | src/main/java/com/lsmt/component/SsTable.java:136-165 | an empty index fails with a null dereference; a record found comes from reading one indexed partition |
| SsTable.Query | src/main/java/com/lsmt/component/SsTable.java:136-171 | `query` fails exactly when the lookup fails; it returns a value only from a found record whose flag is not 1, and null when no record is found |
| SsTable.RestoreFromFile | src/main/java/com/lsmt/component/SsTable.java:176-191 | a file shorter than the footer fails with a negative seek; a restored segment keeps the file and partition size, its footer is the one read from the end of the file, and its index is the one decoded from the range that footer names |
| SegmentLookup.ScanIndexFloor | src/main/java/com/lsmt/component/SsTable.java:139-153 | the index loop gives no range exactly for an empty index; it returns early exactly when the key is below every indexed key; otherwise it stops at the greatest indexed key at most the key |
| SegmentLookup.QueryEmptyIndex | src/main/java/com/lsmt/component/SsTable.java:140-155 | with an empty index the null `lastSmall` is dereferenced |
| SegmentLookup.QueryBelowFirst | src/main/java/com/lsmt/component/SsTable.java:143-145 | a key below every indexed key is null, whatever the file holds |
| SegmentLookup.QueryReadsFloor | src/main/java/com/lsmt/component/SsTable.java:155-162 | otherwise `query` reads exactly the floor key's partition |
| SegmentLookup.IndexOfBuild | src/main/java/com/lsmt/component/SsTable.java:128-129 | a built segment's index lists the partitions' first keys with their ranges, in order |
| SegmentLookup.PartitionLookup | src/main/java/com/lsmt/component/SsTable.java:159-160 | the partition where the loop stops holds the key exactly when the table does, with the table's record |
| SegmentLookup.ProbeBuilt | src/main/java/com/lsmt/component/SsTable.java:136-171 | in a segment built from a non-empty table, the lookup finds exactly the table's record for every key, tombstones included |
| SegmentLookup.QueryBuilt | src/main/java/com/lsmt/component/SsTable.java:160-166 | `query` there returns the table's live value, and null for a tombstone or a missing key |
| SegmentFile.BuiltRangesContiguous | src/main/java/com/lsmt/component/SsTable.java:122-131 | partition ranges start at dataStart, follow one another and end at sparseStart |
| SegmentFile.BuiltRangesInside | src/main/java/com/lsmt/component/SsTable.java:103-107 | every indexed range lies inside the data section |
| SegmentFile.RestoreShortFile | src/main/java/com/lsmt/component/MetaInfo.java:49-58 | a file shorter than the footer fails with a negative seek |
| SegmentFile.SealRestores | src/main/java/com/lsmt/component/SsTable.java:176-191 | an index and footer written after any data reload as written |
| SegmentFile.RestoreBuilt | src/main/java/com/lsmt/component/SsTable.java:176-191 | restoring a file that `saveFile` wrote gives back the segment |
| SegmentFile.ExampleKeyOrder | src/main/java/com/lsmt/component/SsTable.java:193-203 | keys put as b, c, a, f, d are visited as a, b, c, d, f |
| SegmentFile.ExamplePartitions | src/main/java/com/lsmt/component/SsTable.java:91-102 | with two entries per partition those keys are cut into [a, b], [c, d] and [f] |
| SegmentFile.ExampleIndex | src/main/java/com/lsmt/component/SsTable.java:128-129 | that segment's sparse index holds exactly a, c and f |
| Wal.Frame | src/main/java/com/lsmt/service/ChinaDB.java:208-211 | a frame is four bytes that read back as the payload's length whenever it fits an `int`, followed by the payload itself |
| Wal.FramesSnoc | src/main/java/com/lsmt/service/ChinaDB.java:210-211 | each write appends exactly its frame to the log |
| Wal.PayloadRoundTrip | src/main/java/com/lsmt/service/ChinaDB.java:134 | a logged payload decodes to its record |
| Wal.PutAllLastWins | src/main/java/com/lsmt/service/ChinaDB.java:135-137 | after the puts, a key holds its last record written, or what it held before |
| Wal.ReplayFrames | src/main/java/com/lsmt/service/ChinaDB.java:126-139 | replaying the frames of a run of writes puts their records in order |
| Wal.RestoreLastWins | src/main/java/com/lsmt/service/ChinaDB.java:124-143 | the replayed table holds for every key the last record logged for it, and nothing else |
| Wal.ReplayNegativeLength | src/main/java/com/lsmt/service/ChinaDB.java:130-131 | a negative length fails the array allocation |
| Wal.RestoreByWal | src/main/java/com/lsmt/service/ChinaDB.java:124-143 | the `off` loop computes the frame-by-frame replay, errors included |
| Wal.Replay | src/main/java/com/lsmt/service/ChinaDB.java:124-143 | an empty log leaves the table as it is; replay never drops a key, and every key it adds or changes maps to a record for that key |
| ChinaDB.Write | src/main/java/com/lsmt/service/ChinaDB.java:205-221 | a write keeps the store's two sizes |
| ChinaDB.WriteEffect | src/main/java/com/lsmt/service/ChinaDB.java:205-268 | the log grows by the frame only; without a swap nothing else changes; a swap freezes exactly `tableSize` keys and starts an empty table and log; the table stays below `tableSize` |
| ChinaDB.Swap | src/main/java/com/lsmt/service/ChinaDB.java:244-268 | the frozen table becomes the immutable table and, as the segment `saveFile` builds from it, the newest segment; the table and the log start empty |
| ChinaDB.Set | src/main/java/com/lsmt/service/ChinaDB.java:205-221 | right after `set(k, v)` both the read as written and the corrected read give v for k |
| ChinaDB.Del | src/main/java/com/lsmt/service/ChinaDB.java:223-239 | right after `del(k)` both reads give null for k |
| ChinaDB.Get | src/main/java/com/lsmt/service/ChinaDB.java:270-300 | `get` fails only when the key is in neither table, and then with the failure of some segment's `query`; a value not found in the tables is what the `query` of some segment returns |
| ChinaDB.GetLatest | src/main/java/com/lsmt/service/ChinaDB.java:270-300 | wherever the corrected `get` finds a value, `get` as written gives the same value |
| ChinaDB.ScanAgree | src/main/java/com/lsmt/service/ChinaDB.java:293-299 | the two segment scans agree wherever the corrected one finds a value, so they differ only where it stops at a tombstone |
| ChinaDB.GetFromTable | src/main/java/com/lsmt/service/ChinaDB.java:272-278 | a record in the current table answers `get` |
| ChinaDB.GetFromImmutable | src/main/java/com/lsmt/service/ChinaDB.java:280-289 | otherwise a record in the immutable table answers |
| ChinaDB.GetAfterWrite | src/main/java/com/lsmt/service/ChinaDB.java:270-289 | right after a write, its key reads as the record written, swap or not |
| ChinaDB.SetThenGet | src/main/java/com/lsmt/service/ChinaDB.java:205-221 | `set(k, v)` then `get(k)` gives v |
| ChinaDB.DelThenGet | src/main/java/com/lsmt/service/ChinaDB.java:223-239 | `del(k)` then `get(k)` gives null |
| ChinaDB.WritesEngineFlags | src/main/java/com/lsmt/service/ChinaDB.java:223-226 | `set` writes flag 0 and `del` writes flag 1 |
| ChinaDB.OpenHolds | src/main/java/com/lsmt/service/ChinaDB.java:81-96 | a store opened on an empty directory satisfies the store invariant with no writes |
| ChinaDB.SwapHolds | src/main/java/com/lsmt/service/ChinaDB.java:244-268 | a swap keeps the invariant: the frozen table becomes the newest segment and the log restarts |
| ChinaDB.WriteHolds | src/main/java/com/lsmt/service/ChinaDB.java:205-268 | every `set` or `del` keeps the invariant, with the frozen tables and pending writes it names |
| ChinaDB.RunHolds | src/main/java/com/lsmt/service/ChinaDB.java:205-268 | every run of commands from an empty store keeps the invariant |
| ChinaDB.LatestFromTables | src/main/java/com/lsmt/service/ChinaDB.java:270-300 | the corrected `get` answers from the first of the current and flushed tables that holds the key |
| ChinaDB.GetLatestReadsLastWrite | src/main/java/com/lsmt/service/ChinaDB.java:270-300 | under the invariant, the corrected `get` gives the last write's value: null for a tombstone or an unwritten key |
| ChinaDB.GetReadsFirstLive | src/main/java/com/lsmt/service/ChinaDB.java:270-300 | `get` as written answers from the tables, otherwise from the first segment holding a live value |
| ChinaDB.ScanSegmentsFinds | src/main/java/com/lsmt/service/ChinaDB.java:293-299 | the segment scan passes over tombstones to older values |
| ChinaDB.GetResurrects | src/main/java/com/lsmt/service/ChinaDB.java:293-299 | with tableSize 1, after set a 1, del a, set b 2, `get(a)` gives "1" while the corrected read gives null |
| ChinaDB.LatestWins | src/main/java/com/lsmt/service/ChinaDB.java:270-300 | after any run of commands, the corrected `get` gives the value of the last command naming the key |
| ChinaDB.LogRecoversTable | src/main/java/com/lsmt/service/ChinaDB.java:124-143 | after any run, replaying the log rebuilds exactly the current table |
| ChinaDB.RunBound | src/main/java/com/lsmt/service/ChinaDB.java:215-217 | with tableSize at least 1, the table never holds tableSize keys between writes |
| Command.Lower | src/main/java/com/lsmt/service/ChinaDB.java:167 | lower-casing keeps the length and maps each character |
| Command.TokensAreTokens | src/main/java/com/lsmt/service/ChinaDB.java:166 | splitting at spaces gives non-empty tokens without spaces |
| Command.SplitJoin | src/main/java/com/lsmt/service/ChinaDB.java:166 | splitting tokens joined by single spaces gives the tokens back |
| Command.NotBlankHasToken | src/main/java/com/lsmt/service/ChinaDB.java:163-167 | a line that is not blank has a first token, so `strings[0]` exists |
| Command.Classify | src/main/java/com/lsmt/service/ChinaDB.java:167-188 | each outcome arises exactly for its command word and token count, and the arguments pass through `processQuotation` |
| Command.Parse | src/main/java/com/lsmt/service/ChinaDB.java:162-167 | a line is ignored exactly when it is blank; otherwise it has a first token and is classified from its tokens |
| Command.Execute | src/main/java/com/lsmt/service/ChinaDB.java:162-189 | only `set` and `del` lines change the store; only a `get` line fails, with the fault `get` raises; after a `set` or `del` line, `get` of its key gives the value set or null |
| Command.ProcessQuotation | src/main/java/com/lsmt/service/ChinaDB.java:191-199 | strips one pair of quotes exactly when the word has two or more characters and starts and ends with a quote; otherwise the word is kept |
| Command.QuoteRoundTrip | src/main/java/com/lsmt/service/ChinaDB.java:195-196 | quoting any word, even the empty one, then processing gives the word back |
| Command.ProcessQuotationNotIdempotent | src/main/java/com/lsmt/service/ChinaDB.java:195-196 | a doubly quoted word loses only one pair per call |
| Command.BlankIgnored | src/main/java/com/lsmt/service/ChinaDB.java:163-165 | a blank line changes nothing and prints nothing |
| Command.ParseRendered | src/main/java/com/lsmt/service/ChinaDB.java:166-172 | a command word followed by quoted arguments splits back into them and each loses its quotes |
| Command.ParseSet | src/main/java/com/lsmt/service/ChinaDB.java:168-173 | `set` in any letter case with two arguments stores them; any other count is a syntax error |
| Command.ParseGet | src/main/java/com/lsmt/service/ChinaDB.java:174-179 | `get` with one argument reads it; any other count is a syntax error |
| Command.ParseDel | src/main/java/com/lsmt/service/ChinaDB.java:180-185 | `del` with one argument deletes it; any other count prints an empty line |
| Command.ParseOther | src/main/java/com/lsmt/service/ChinaDB.java:186-188 | any other command word is unsupported |
| Command.QuotedSpaceSplits | src/main/java/com/lsmt/service/ChinaDB.java:166-170 | a quoted value holding a space is cut in two, giving a syntax error |
| Command.ExecuteWrite | src/main/java/com/lsmt/service/ChinaDB.java:168-185 | a `set` line performs `set` and a `del` line performs `del`, printing nothing |
| Command.CommandLines | src/main/java/com/lsmt/service/ChinaDB.java:166-185 | the lines `set "k" "v"`, `get "k"` and `del "k"`, each argument in double quotes, parse to their commands for keys and values without spaces |
| Command.ExecuteGet | src/main/java/com/lsmt/service/ChinaDB.java:178 | a `get` line prints the value found and nothing for null |
| Command.ExecuteSetThenGet | src/main/java/com/lsmt/service/ChinaDB.java:162-189 | typing `set "k" "v"` and then `get "k"` prints v |
| Command.ExecuteDelThenGet | src/main/java/com/lsmt/service/ChinaDB.java:162-189 | typing `del "k"` and then `get "k"` prints nothing |

## Left out

- The data directory scan in the constructor is left out. This covers
  listing the files, parsing segment names and sorting them newest first.
  The `addAll` inside that loop, which adds the same segments again for
  every later file, is left out too. The model starts from an empty
  directory (`ChinaDB.Open`), and each segment is restored on its own
  (`SsTable.RestoreFromFile`).
- The flush runs on a background executor in the source. The model
  finishes it before the write returns. Two effects of the real timing are
  not modelled:
  - `get` can run after the swap but before the new segment is added.
  - The job reads the `immutableIndex` field when it runs, not when it is
    submitted (ChinaDB.java:258-261). If a second swap happens before the
    first job runs, both jobs save the newer table. The older table is
    then never saved, and the second swap has already deleted its
    `wal_tmp` (ChinaDB.java:247-252), so its writes are lost.
- `wal_tmp`, the renames and deletions of files are not modelled. The log
  is modelled as the bytes of the current log file.
- JSON (gson and fastjson) is replaced by a binary codec that stores each
  character as its code point, so every key and value round-trips. The
  source does not guarantee this. It turns the JSON text into bytes with
  the platform default charset (`getBytes()` at ChinaDB.java:208 and 226
  and SsTable.java:123), but reads the bytes back as UTF-8 (ChinaDB.java:134,
  SsTable.java:158 and 184). So a non-ASCII key or value round-trips only
  when the default charset is UTF-8. Other charsets, the exact JSON text and
  its escaping are not modelled.
- Keys are compared character by character with `char` order.
  `String.compareTo` compares UTF-16 code units, and the two orders differ
  only above U+FFFF.
- The `(int)` casts of `Position.length` and `sparseLength` before
  `new byte[...]` are not modelled. Lengths are unbounded integers.
- `RandomAccessFile.read` returning fewer bytes than asked is not modelled.
  A frame running past the end of the log is an error (`Malformed`).
- `off` in `restoreByWal` is an `int` and would wrap above 2 GiB. The model
  uses an unbounded offset.
- Console output is modelled as the `Command.Reply` of a line, not as text
  on a stream.
- `toLowerCase` is modelled on ASCII letters only. Locale rules and
  non-ASCII case mappings are not modelled.
- `main` in ChinaDB.java is a gson demo and is left out.
- A null command line or word is not modelled. `execute` is only called
  with lines read from the console, which are never null.
- `ChinaDB.LatestWins`: requires every payload to fit the 4-byte length
  field (`Loggable`). The bound is on the model's encoding, which spends
  3 bytes per character, while gson's JSON spends about 1 byte per ASCII
  character. So `Loggable` excludes every record whose model encoding
  reaches 2^31 bytes. Among these are some records of more than about 700
  million characters, which Java still writes and replays.
- `ChinaDB.LogRecoversTable`: requires the same `Loggable` condition.
- `SegmentFile.RestoreBuilt`: requires the file to be below 2^63 bytes, so
  that every offset fits in a Java long.
- `Wal.ReplayFrames`: requires each record to be `Framable`, for the same
  reason as `ChinaDB.LatestWins`.
- `SegmentLookup.ProbeBuilt`: requires a non-empty table. The engine never
  flushes an empty table, and an empty segment's null `lastSmall` is
  covered by `SegmentLookup.QueryEmptyIndex`.

## Findings

| source | as written | input that shows it | evidently intended | confidence | as-written member | corrected member |
|---|---|---|---|---|---|---|
| src/main/java/com/lsmt/service/ChinaDB.java:293-299 | the segment scan goes on to older segments whenever `query` returns null, and `query` returns null for a tombstone as well as for a missing key | tableSize 1, partitionSize 2: `set a 1`, `del a`, `set b 2`, then `get a` prints 1 | a tombstone in a newer segment ends the search, so a deleted key reads as null | not executed | ChinaDB.GetResurrects | ChinaDB.LatestWins |
