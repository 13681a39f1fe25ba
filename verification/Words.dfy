/** Machine words of the file system: bytes, big-endian longwords, and the
    correspondence between a block seen as longwords and the same block seen as bytes. */
module Words {
  const LONG_LIMIT := 0x1_0000_0000
  const WORD_LIMIT := 0x1_0000
  const ALL_ONES: Long := 0xFFFF_FFFF

  type Byte = x: int | 0 <= x < 256
  type Word = x: int | 0 <= x < 0x1_0000
  type Long = x: int | 0 <= x < 0x1_0000_0000

  function Min(a: int, b: int): int {
    if a < b then a else b
  }

  function WordBytes(w: Word): (b: seq<Byte>)
    ensures |b| == 2
  {
    [w / 0x100, w % 0x100]
  }

  function WordOf(b: seq<Byte>): Word
    requires |b| == 2
  {
    (b[0] as int) * 0x100 + b[1] as int
  }

  function LongBytes(x: Long): (b: seq<Byte>)
    ensures |b| == 4
  {
    [x / 0x100 / 0x100 / 0x100, x / 0x100 / 0x100 % 0x100, x / 0x100 % 0x100, x % 0x100]
  }

  function LongOf(b: seq<Byte>): Long
    requires |b| == 4
  {
    (((b[0] as int) * 0x100 + b[1] as int) * 0x100 + b[2] as int) * 0x100 + b[3] as int
  }

  lemma LongDigits(x: Long)
    ensures var b := LongBytes(x);
      x == 0x1000000 * (b[0] as int) + 0x10000 * (b[1] as int) + 0x100 * (b[2] as int) + b[3] as int
  {
  }

  lemma LongValue(b: seq<Byte>)
    requires |b| == 4
    ensures LongOf(b)
         == 0x1000000 * (b[0] as int) + 0x10000 * (b[1] as int) + 0x100 * (b[2] as int) + b[3] as int
  {
  }

  lemma LongRoundTrip(x: Long)
    ensures LongOf(LongBytes(x)) == x
  {
  }

  lemma LongBytesRoundTrip(b: seq<Byte>)
    requires |b| == 4
    ensures LongBytes(LongOf(b)) == b
  {
    var x := LongOf(b);
    assert x / 0x100 == ((b[0] as int) * 0x100 + b[1] as int) * 0x100 + b[2] as int && x % 0x100 == b[3];
    var y := x / 0x100;
    assert y / 0x100 == (b[0] as int) * 0x100 + b[1] as int && y % 0x100 == b[2];
  }

  /** The bytes of a run of longwords. */
  function BytesOf(longs: seq<Long>): (b: seq<Byte>)
    ensures |b| == 4 * |longs|
  {
    if longs == [] then [] else LongBytes(longs[0]) + BytesOf(longs[1..])
  }

  /** The longwords stored in a run of bytes. */
  function LongsOf(b: seq<Byte>): (longs: seq<Long>)
    requires |b| % 4 == 0
    ensures |longs| == |b| / 4
  {
    if b == [] then [] else [LongOf(b[..4])] + LongsOf(b[4..])
  }

  lemma {:induction false} LongsOfBytesOf(longs: seq<Long>)
    ensures LongsOf(BytesOf(longs)) == longs
  {
    if longs == [] {
    } else {
      var b := BytesOf(longs);
      assert b[..4] == LongBytes(longs[0]) && b[4..] == BytesOf(longs[1..]);
      LongRoundTrip(longs[0]);
      LongsOfBytesOf(longs[1..]);
    }
  }

  lemma {:induction false} BytesOfLongsOf(b: seq<Byte>)
    requires |b| % 4 == 0
    ensures BytesOf(LongsOf(b)) == b
  {
    if b == [] {
    } else {
      LongBytesRoundTrip(b[..4]);
      BytesOfLongsOf(b[4..]);
      assert LongsOf(b)[1..] == LongsOf(b[4..]);
      assert b == b[..4] + b[4..];
    }
  }

  lemma BytesOfNothing()
    ensures BytesOf([]) == []
  {
  }

  lemma {:induction false} BytesOfSnoc(longs: seq<Long>, x: Long)
    ensures BytesOf(longs + [x]) == BytesOf(longs) + LongBytes(x)
  {
    if longs == [] {
      assert [x][1..] == [];
    } else {
      assert (longs + [x])[1..] == longs[1..] + [x];
      BytesOfSnoc(longs[1..], x);
    }
  }

  lemma {:induction false} LongsOfAt(b: seq<Byte>, i: nat)
    requires |b| % 4 == 0 && 4 * i < |b|
    ensures LongsOf(b)[i] == LongOf(b[4 * i..4 * i + 4])
  {
    if i > 0 {
      LongsOfAt(b[4..], i - 1);
      assert b[4..][4 * (i - 1)..4 * (i - 1) + 4] == b[4 * i..4 * i + 4];
    }
  }

  function Zeros(n: nat): (b: seq<Byte>)
    ensures |b| == n
  {
    seq(n, _ => 0)
  }
}
