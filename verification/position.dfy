/** A byte range of a segment file (`Position`: start, length), and reading
    it back: `seek(start)` followed by filling a `new byte[length]`. */
module Position {
  import opened Wrappers
  import opened Bytes

  datatype Position = Position(start: int, length: int) {
    /** One past the last byte of the range. */
    function End(): int {
      start + length
    }

    /** The range denotes the bytes [start, start + length). */
    predicate Covers(offset: int) {
      start <= offset < End()
    }
  }

  /** The bytes a range of the file holds. A negative start makes `seek`
      throw; a negative length makes the array allocation throw; a range
      running past the end of the file cannot be read in full. */
  function Read(file: seq<byte>, p: Position): (r: Result<seq<byte>>)
    ensures r.Ok? <==> 0 <= p.start && 0 <= p.length && p.End() <= |file|
    ensures r.Ok? ==> |r.value| == p.length
    ensures r.Ok? ==> forall i :: p.Covers(i) ==> r.value[i - p.start] == file[i]
  {
    if p.start < 0 then Err(NegativeSeek)
    else if p.length < 0 then Err(NegativeArraySize)
    else if p.End() > |file| then Err(EndOfFile)
    else Ok(file[p.start..p.End()])
  }

  /** Reading a range that lies in a prefix of the file only sees the prefix. */
  lemma {:induction false} ReadPrefix(a: seq<byte>, b: seq<byte>, p: Position)
    requires 0 <= p.start && 0 <= p.length && p.End() <= |a|
    ensures Read(a + b, p) == Read(a, p)
  {
    assert (a + b)[p.start..p.End()] == a[p.start..p.End()];
  }

  /** Reading the range [|a|, |a| + |b|) of a + b + c gives b. */
  lemma {:induction false} ReadMiddle(a: seq<byte>, b: seq<byte>, c: seq<byte>)
    ensures Read(a + b + c, Position(|a|, |b|)) == Ok(b)
  {
    assert (a + b + c)[|a|..|a| + |b|] == b;
  }
}
