/** Bytes and the fixed-width integer encodings of `java.io.DataOutput`
    (`writeInt`, `writeLong`: big-endian two's complement) and their readers
    in `java.io.DataInput`, plus the character and string encoding this model
    uses in place of JSON text. */
module Bytes {
  import opened Wrappers

  type byte = b: int | 0 <= b < 256

  /** Splitting [x] + a + b after its first element. */
  lemma {:induction false} ConsSplit<T>(x: T, a: seq<T>, b: seq<T>)
    ensures ([x] + a + b)[0] == x && ([x] + a + b)[1..] == a + b
  {
    assert [x] + a + b == [x] + (a + b);
  }

  /** 256 to the power k: the number of values k bytes can hold. */
  function Pow256(k: nat): (p: nat)
    ensures p >= 1
  {
    if k == 0 then 1 else 256 * Pow256(k - 1)
  }

  lemma {:induction false} Pow256Values()
    ensures Pow256(3) == 0x100_0000
    ensures Pow256(4) == 0x1_0000_0000
    ensures Pow256(8) == 0x1_0000_0000_0000_0000
  {
  }

  /** The k-byte big-endian representation of n, most significant byte first. */
  function BigEndian(n: nat, k: nat): (bs: seq<byte>)
    requires n < Pow256(k)
    ensures |bs| == k
  {
    if k == 0 then []
    else
      assert n / 256 < Pow256(k - 1);
      BigEndian(n / 256, k - 1) + [n % 256]
  }

  /** The unsigned number a big-endian byte sequence denotes. */
  function FromBigEndian(bs: seq<byte>): (n: nat)
    ensures n < Pow256(|bs|)
  {
    if |bs| == 0 then 0
    else FromBigEndian(bs[..|bs| - 1]) * 256 + bs[|bs| - 1]
  }

  lemma {:induction false} BigEndianRoundTrip(n: nat, k: nat)
    requires n < Pow256(k)
    ensures FromBigEndian(BigEndian(n, k)) == n
  {
    if k > 0 {
      var bs := BigEndian(n, k);
      assert bs[..k - 1] == BigEndian(n / 256, k - 1);
      BigEndianRoundTrip(n / 256, k - 1);
    }
  }

  // ---- java.io.DataOutput.writeInt / DataInput.readInt ----

  /** Java's `int` range. */
  predicate IsInt(x: int) {
    -0x8000_0000 <= x < 0x8000_0000
  }

  type int32 = x: int | IsInt(x)

  /** The four bytes `writeInt` emits: the low 32 bits of x, big-endian. */
  function WriteInt(x: int): (bs: seq<byte>)
    ensures |bs| == 4
    ensures FromBigEndian(bs) == x % 0x1_0000_0000
  {
    Pow256Values();
    BigEndianRoundTrip(x % 0x1_0000_0000, 4);
    BigEndian(x % 0x1_0000_0000, 4)
  }

  /** The signed value `readInt` assembles from four bytes. */
  function ReadInt(bs: seq<byte>): (x: int32)
    requires |bs| == 4
    ensures x % 0x1_0000_0000 == FromBigEndian(bs)
  {
    Pow256Values();
    var u := FromBigEndian(bs);
    if u >= 0x8000_0000 then u - 0x1_0000_0000 else u
  }

  lemma {:induction false} IntRoundTrip(x: int)
    requires IsInt(x)
    ensures ReadInt(WriteInt(x)) == x
  {
    Pow256Values();
    BigEndianRoundTrip(x % 0x1_0000_0000, 4);
  }

  // ---- java.io.DataOutput.writeLong / DataInput.readLong ----

  /** Java's `long` range. */
  predicate IsLong(x: int) {
    -0x8000_0000_0000_0000 <= x < 0x8000_0000_0000_0000
  }

  /** The eight bytes `writeLong` emits: the low 64 bits of x, big-endian. */
  function WriteLong(x: int): (bs: seq<byte>)
    ensures |bs| == 8
    ensures FromBigEndian(bs) == x % 0x1_0000_0000_0000_0000
  {
    Pow256Values();
    BigEndianRoundTrip(x % 0x1_0000_0000_0000_0000, 8);
    BigEndian(x % 0x1_0000_0000_0000_0000, 8)
  }

  /** The signed value `readLong` assembles from eight bytes. */
  function ReadLong(bs: seq<byte>): (x: int)
    requires |bs| == 8
    ensures IsLong(x)
    ensures x % 0x1_0000_0000_0000_0000 == FromBigEndian(bs)
  {
    Pow256Values();
    var u := FromBigEndian(bs);
    if u >= 0x8000_0000_0000_0000 then u - 0x1_0000_0000_0000_0000 else u
  }

  lemma {:induction false} LongRoundTrip(x: int)
    requires IsLong(x)
    ensures ReadLong(WriteLong(x)) == x
  {
    Pow256Values();
    BigEndianRoundTrip(x % 0x1_0000_0000_0000_0000, 8);
  }

  // ---- characters and strings ----

  /** Each character is stored as its 3-byte code point. A code point is
      below 0x110000, so the leading byte is at most 0x10 and can never be
      the string terminator. */
  const StringEnd: byte := 0xFF

  function EncodeChar(c: char): (bs: seq<byte>)
    ensures |bs| == 3 && bs[0] != StringEnd
  {
    Pow256Values();
    var n := c as int;
    var bs := BigEndian(n, 3);
    assert bs[0] == BigEndian(n / 256, 2)[0] == BigEndian(n / 256 / 256, 1)[0];
    assert n / 256 / 256 < 0x11;
    bs
  }

  /** A code point Dafny's `char` can hold (a Unicode scalar value). */
  predicate IsScalar(n: int) {
    0 <= n < 0xD800 || 0xE000 <= n < 0x11_0000
  }

  function DecodeChar(bs: seq<byte>): (r: Option<char>)
    requires |bs| == 3
    ensures r.Some? <==> IsScalar(FromBigEndian(bs))
  {
    var n := FromBigEndian(bs);
    if IsScalar(n) then Some(n as char) else None
  }

  lemma {:induction false} CharRoundTrip(c: char)
    ensures DecodeChar(EncodeChar(c)) == Some(c)
  {
    Pow256Values();
    BigEndianRoundTrip(c as int, 3);
  }

  /** The characters of s, then the terminator. */
  function EncodeString(s: string): (bs: seq<byte>)
    ensures |bs| == 3 * |s| + 1
  {
    if |s| == 0 then [StringEnd] else EncodeChar(s[0]) + EncodeString(s[1..])
  }

  /** Reads one string off the front of bs; returns it and the bytes after it. */
  function ParseString(bs: seq<byte>): (r: Option<(string, seq<byte>)>)
    ensures r.Some? ==> |r.value.1| < |bs|
    decreases |bs|
  {
    if |bs| == 0 then None
    else if bs[0] == StringEnd then Some(("", bs[1..]))
    else if |bs| < 3 then None
    else match DecodeChar(bs[..3])
      case None => None
      case Some(c) =>
        match ParseString(bs[3..])
        case None => None
        case Some((s, rest)) => Some(([c] + s, rest))
  }

  lemma {:induction false} StringRoundTrip(s: string, rest: seq<byte>)
    ensures ParseString(EncodeString(s) + rest) == Some((s, rest))
    decreases |s|
  {
    var bs := EncodeString(s) + rest;
    if |s| > 0 {
      var e := EncodeChar(s[0]);
      assert bs == e + (EncodeString(s[1..]) + rest);
      assert bs[..3] == e;
      assert bs[3..] == EncodeString(s[1..]) + rest;
      CharRoundTrip(s[0]);
      StringRoundTrip(s[1..], rest);
      assert [s[0]] + s[1..] == s;
    }
  }
}
