/** The bit functions of bitfuncs.c on longwords, whose first bit is the highest one.  They do to the
    longwords of a bitmap what `Bitmap` and `Space` do to its bits. */
module LongBits {
  import opened Words
  import opened Ranges
  import opened Space

  // ----- Powers of two

  function Pow2(n: nat): (p: nat)
    ensures p >= 1
  {
    if n == 0 then 1 else 2 * Pow2(n - 1)
  }

  lemma {:induction false} Pow2Adds(a: nat, b: nat)
    ensures Pow2(a + b) == Pow2(a) * Pow2(b)
  {
    if a > 0 {
      Pow2Adds(a - 1, b);
      assert Pow2(a) * Pow2(b) == 2 * (Pow2(a - 1) * Pow2(b));
    }
  }

  lemma Pow2Is32()
    ensures Pow2(32) == 0x1_0000_0000
  {
    assert Pow2(8) == 0x100;
    Pow2Adds(8, 8);
    Pow2Adds(16, 16);
  }

  /** Dividing twice. */
  lemma DivideTwice(w: nat, a: nat, b: nat)
    ensures w / Pow2(a) / Pow2(b) == w / Pow2(a + b)
  {
    hide Pow2;
    Pow2Adds(a, b);
    DivideByBoth(w, Pow2(a), Pow2(b));
  }

  lemma DivideByBoth(w: nat, x: nat, y: nat)
    requires x > 0 && y > 0
    ensures x * y > 0 && w / x / y == w / (x * y)
  {
    AtLeast(y, x);
    var v := w / x;
    var q, r, s := v / y, v % y, w % x;
    Whole(w, x);
    Whole(v, y);
    Regroup(q, r, s, x, y);
    Between(r, s, x, y);
    DivideAt(w, x * y, q);
  }

  lemma Whole(w: nat, x: nat)
    requires x > 0
    ensures w == w / x * x + w % x && w % x < x
  {
  }

  lemma Regroup(q: nat, r: nat, s: nat, x: nat, y: nat)
    ensures (q * y + r) * x + s == q * (x * y) + (r * x + s)
  {
    assert (q * y + r) * x == q * y * x + r * x;
    assert q * y * x == q * (x * y);
  }

  lemma Between(r: nat, s: nat, x: nat, y: nat)
    requires r < y && s < x
    ensures r * x + s < x * y
  {
    AtLeast(y - r, x);
    assert (y - r) * x == x * y - r * x;
  }

  // ----- Bits of a longword

  predicate Bit(w: Long, i: nat)
    requires i < 32
  {
    w / Pow2(31 - i) % 2 == 1
  }

  function BitsOf(w: Long): (bits: seq<bool>)
    ensures |bits| == 32 && forall i :: 0 <= i < 32 ==> bits[i] == Bit(w, i)
  {
    seq(32, i requires 0 <= i < 32 => Bit(w, i))
  }

  /** The number with these bits, the highest one first. */
  function Number(bits: seq<bool>): (n: nat)
    ensures n < Pow2(|bits|)
  {
    if bits == [] then 0 else 2 * Number(bits[..|bits| - 1]) + if bits[|bits| - 1] then 1 else 0
  }

  lemma {:induction false} NumberDivided(bits: seq<bool>, k: nat)
    requires k <= |bits|
    ensures Number(bits) / Pow2(k) == Number(bits[..|bits| - k])
  {
    if k == 0 {
      assert bits[..|bits|] == bits;
    } else {
      var before := bits[..|bits| - 1];
      NumberDivided(before, k - 1);
      Halved(bits);
      Pow2Is2();
      hide Number, Pow2;
      DivideTwice(Number(bits), 1, k - 1);
      assert before[..|before| - (k - 1)] == bits[..|bits| - k];
    }
  }

  lemma Pow2Is2()
    ensures Pow2(1) == 2
  {
  }

  lemma Halved(bits: seq<bool>)
    requires bits != []
    ensures Number(bits) / 2 == Number(bits[..|bits| - 1])
  {
    NumberStep(bits);
    hide Number;
    Half(Number(bits[..|bits| - 1]));
  }

  lemma Half(n: nat)
    ensures 2 * n / 2 == n && (2 * n + 1) / 2 == n
  {
  }

  /** The longword with these bits. */
  function LongWith(bits: seq<bool>): (w: Long)
    requires |bits| == 32
  {
    Pow2Is32();
    Number(bits)
  }

  lemma LongWithBits(bits: seq<bool>)
    requires |bits| == 32
    ensures forall i: nat :: i < 32 ==> Bit(LongWith(bits), i) == bits[i]
  {
    forall i: nat | i < 32 ensures Bit(LongWith(bits), i) == bits[i] {
      LongWithBit(bits, i);
    }
  }

  lemma LongWithBit(bits: seq<bool>, i: nat)
    requires |bits| == 32 && i < 32
    ensures Bit(LongWith(bits), i) == bits[i]
  {
    hide Pow2, Number;
    NumberDivided(bits, 31 - i);
    var upTo := bits[..i + 1];
    assert bits[..|bits| - (31 - i)] == upTo;
    LastBit(upTo);
  }

  lemma LastBit(bits: seq<bool>)
    requires bits != []
    ensures Number(bits) % 2 == 1 <==> bits[|bits| - 1]
  {
    NumberStep(bits);
    hide Number;
    var n := Number(bits[..|bits| - 1]);
    Parity(n);
  }

  lemma Parity(n: nat)
    ensures 2 * n % 2 == 0 && (2 * n + 1) % 2 == 1
  {
  }

  lemma NumberStep(bits: seq<bool>)
    requires bits != []
    ensures Number(bits) == 2 * Number(bits[..|bits| - 1]) + if bits[|bits| - 1] then 1 else 0
  {
  }

  lemma {:induction false} NumberOf(w: Long, n: nat)
    requires n <= 32
    ensures Number(BitsOf(w)[..n]) == w / Pow2(32 - n)
  {
    if n == 0 {
      Pow2Is32();
    } else {
      NumberOf(w, n - 1);
      var upTo := BitsOf(w)[..n];
      assert upTo[..n - 1] == BitsOf(w)[..n - 1];
      DivideTwice(w, 32 - n, 1);
      assert Pow2(1) == 2;
    }
  }

  /** A longword is given by its bits. */
  lemma SameBits(a: Long, b: Long)
    requires forall i: nat :: i < 32 ==> Bit(a, i) == Bit(b, i)
    ensures a == b
  {
    assert BitsOf(a) == BitsOf(b);
    WholeNumber(a);
    WholeNumber(b);
  }

  lemma WholeNumber(w: Long)
    ensures Number(BitsOf(w)) == w
  {
    hide Number, Bit;
    NumberOf(w, 32);
    assert BitsOf(w)[..32] == BitsOf(w);
    assert Pow2(0) == 1;
  }

  // ----- Masks

  /** The first `bits` bits: ~((1 << (32 - bits)) - 1). */
  function Field(bits: nat): (m: nat)
    requires 1 <= bits <= 32
  {
    Pow2Adds(bits, 32 - bits);
    AtLeast(Pow2(bits), Pow2(32 - bits));
    Pow2(32) - Pow2(32 - bits)
  }

  lemma FieldFits(bits: nat)
    requires 1 <= bits <= 32
    ensures Field(bits) == Pow2(32) - Pow2(32 - bits) < 0x1_0000_0000
  {
    Pow2Is32();
  }

  /** Those bits shifted to bit `offset`. */
  function Mask(offset: nat, bits: nat): Long
    requires offset < 32 && 1 <= bits <= 32
  {
    FieldFits(bits);
    Quotient(Field(bits), Pow2(offset));
    Field(bits) / Pow2(offset)
  }

  lemma Quotient(m: nat, d: nat)
    requires d > 0
    ensures 0 <= m / d <= m
  {
    var v, r := m / d, m % d;
    assert m == v * d + r;
    Product(v, d);
  }

  lemma Product(v: int, d: nat)
    requires d > 0
    ensures v >= 0 ==> v * d >= v
    ensures v < 0 ==> v * d <= -(d as int)
  {
    if v >= 0 {
      var e := d - 1;
      assert v * d == v * e + v;
    } else {
      AtLeast(-v, d);
      assert (-v) * d == -(v * d);
    }
  }

  /** The mask has exactly those bits. */
  lemma MaskBits(offset: nat, bits: nat, i: nat)
    requires offset < 32 && 1 <= bits <= 32 && i < 32
    ensures Bit(Mask(offset, bits), i) <==> offset <= i < offset + bits
  {
    hide Pow2, Field;
    FieldFits(bits);
    var m := Field(bits);
    DivideTwice(m, offset, 31 - i);
    if i < offset {
      Pow2Is32();
      Pow2Adds(32, offset - i - 1);
      AtLeast(Pow2(offset - i - 1), 0x1_0000_0000);
      DivideAt(m, Pow2(offset + 31 - i), 0);
    } else if i - offset < bits {
      MaskInside(bits, i - offset);
    } else {
      MaskBehind(bits, i - offset);
    }
  }

  lemma Pow2Even(n: nat)
    requires n > 0
    ensures Pow2(n) % 2 == 0
  {
  }

  lemma MaskInside(bits: nat, p: nat)
    requires 1 <= bits <= 32 && p < bits
    ensures Field(bits) / Pow2(31 - p) % 2 == 1
  {
    hide Pow2, Field;
    FieldFits(bits);
    Pow2Adds(31 - p, p + 1);
    Pow2Adds(32 - bits, bits - 1 - p);
    AtLeast(Pow2(bits - 1 - p), Pow2(32 - bits));
    Pow2Even(p + 1);
    OneLess(Pow2(31 - p), Pow2(p + 1), Pow2(32 - bits), Field(bits));
  }

  lemma OneLess(e: nat, p: nat, s: nat, m: nat)
    requires 0 < s <= e && p > 0 && p % 2 == 0 && m == e * p - s
    ensures m / e % 2 == 1
  {
    assert (p - 1) * e == e * p - e;
    DivideAt(m, e, p - 1);
  }

  lemma MaskBehind(bits: nat, p: nat)
    requires 1 <= bits <= p < 32
    ensures Field(bits) / Pow2(31 - p) % 2 == 0
  {
    hide Pow2, Field;
    FieldFits(bits);
    Pow2Adds(31 - p, p + 1);
    Pow2Adds(31 - p, p + 1 - bits);
    Pow2Even(p + 1);
    Pow2Even(p + 1 - bits);
    EvenLess(Pow2(31 - p), Pow2(p + 1), Pow2(p + 1 - bits), Field(bits));
  }

  lemma EvenLess(e: nat, p: nat, r: nat, m: nat)
    requires e > 0 && p % 2 == 0 && r % 2 == 0 && m == e * p - e * r
    ensures m / e % 2 == 0
  {
    assert (p - r) * e == m;
    NotNegative(p - r, e);
    DivideAt(m, e, p - r);
  }

  lemma NotNegative(q: int, n: nat)
    requires n > 0 && q * n >= 0
    ensures q >= 0
  {
    AtLeast(-q, n);
  }

  // ----- Setting and clearing bits of a longword

  /** data | mask, or data & ~mask. */
  function WithMask(data: Long, mask: Long, v: bool): Long {
    LongWith(seq(32, i requires 0 <= i < 32 => if Bit(mask, i) then v else Bit(data, i)))
  }

  /** `bfset` (v is true) and `bfclr`. */
  function BfFill(data: Long, offset: nat, bits: nat, v: bool): Long
    requires offset < 32 && 1 <= bits <= 32
  {
    WithMask(data, Mask(offset, bits), v)
  }

  lemma BfFillBits(data: Long, offset: nat, bits: nat, v: bool)
    requires offset < 32 && 1 <= bits <= 32
    ensures forall i: nat :: i < 32 ==>
      Bit(BfFill(data, offset, bits, v), i) == if offset <= i < offset + bits then v else Bit(data, i)
  {
    hide Bit, Mask, LongWith;
    LongWithBits(seq(32, i requires 0 <= i < 32 => if Bit(Mask(offset, bits), i) then v else Bit(data, i)));
    forall i: nat | i < 32
      ensures Bit(BfFill(data, offset, bits, v), i) == if offset <= i < offset + bits then v else Bit(data, i)
    {
      MaskBits(offset, bits, i);
    }
  }

  /** All bits set, or none. */
  function Uniform(v: bool): Long { if v then ALL_ONES else 0 }

  lemma UniformBits(v: bool)
    ensures forall i: nat :: i < 32 ==> Bit(Uniform(v), i) == v
  {
    hide Pow2, Field, Bit;
    FullMask();
    forall i: nat | i < 32 ensures Bit(Uniform(v), i) == v {
      if v { MaskBits(0, 32, i); } else { NoBit(i); }
    }
  }

  lemma FullMask()
    ensures Mask(0, 32) == ALL_ONES
  {
    Pow2Is32();
    FieldFits(32);
    hide Field;
    assert Pow2(0) == 1;
  }

  lemma NoBit(i: nat)
    requires i < 32
    ensures !Bit(0, i)
  {
    hide Pow2;
    DivideAt(0, Pow2(31 - i), 0);
  }

  /** A longword has no bit other than v just if it is uniform. */
  lemma UniformJust(w: Long, v: bool)
    ensures w == Uniform(v) <==> forall i: nat :: i < 32 ==> Bit(w, i) == v
  {
    hide Bit;
    UniformBits(v);
    if forall i: nat :: i < 32 ==> Bit(w, i) == v { SameBits(w, Uniform(v)); }
  }

  /** First bit v from `offset` on, or -1 (`bfffo` and `bfffz`). */
  method BfFirst(data: Long, offset: nat, v: bool) returns (bit: int)
    requires offset < 32
    ensures bit == FirstBit(BitsOf(data), offset, v)
  {
    var bitmask, at := Pow2(31 - offset), offset;
    ghost var bits := BitsOf(data);
    while true
      invariant offset <= at < 32 && bitmask == Pow2(31 - at)
      invariant FirstBit(bits, at, v) == FirstBit(bits, offset, v)
      decreases 32 - at
    {
      if (data / bitmask % 2 == 1) == v {
        return at;
      }
      at := at + 1;
      bitmask := bitmask / 2;
      if bitmask == 0 {
        break;
      }
    }
    bit := -1;
  }

  // ----- Bitmaps

  /** The bits of a run of longwords. */
  function Flat(longs: seq<Long>): (bits: seq<bool>)
    ensures |bits| == 32 * |longs|
    ensures forall k: nat :: k < |bits| ==> bits[k] == Bit(longs[k / 32], k % 32)
  {
    seq(32 * |longs|, k requires 0 <= k < 32 * |longs| => Bit(longs[k / 32], k % 32))
  }

  /** A bit of the bitmap is one of a longword. */
  lemma FlatBit(longs: seq<Long>, j: nat, i: nat)
    requires j < |longs| && i < 32
    ensures 32 * j + i < 32 * |longs| && Flat(longs)[32 * j + i] == Bit(longs[j], i)
  {
    assert (32 * j + i) / 32 == j && (32 * j + i) % 32 == i;
  }

  /** Longwords `longs` are those of `before` with the bits [from, to) set to v, up to long `end`. */
  ghost predicate FilledUp(before: seq<Long>, longs: seq<Long>, from: nat, to: nat, v: bool, end: nat) {
    && |longs| == |before|
    && forall j: nat, i: nat :: j < |longs| && i < 32 ==>
         Bit(longs[j], i) == if from <= 32 * j + i < to && j < end then v else Bit(before[j], i)
  }

  /** One more longword. */
  lemma FilledMore(before: seq<Long>, longs: seq<Long>, from: nat, to: nat, v: bool, end: nat, w: Long)
    requires FilledUp(before, longs, from, to, v, end) && end < |longs|
    requires forall i: nat :: i < 32 ==> Bit(w, i) == if from <= 32 * end + i < to then v else Bit(longs[end], i)
    ensures FilledUp(before, longs[end := w], from, to, v, end + 1)
  {
    hide Bit;
  }

  lemma FilledFlat(before: seq<Long>, longs: seq<Long>, from: nat, to: nat, v: bool, end: nat)
    requires FilledUp(before, longs, from, to, v, end) && (to <= 32 * end || end == |longs|)
    ensures forall k: nat :: k < 32 * |longs| ==> Flat(longs)[k] == if from <= k < to then v else Flat(before)[k]
  {
    hide Bit;
    forall k: nat | k < 32 * |longs| ensures Flat(longs)[k] == if from <= k < to then v else Flat(before)[k] {
      assert 32 * (k / 32) + k % 32 == k;
      FlatBit(longs, k / 32, k % 32);
      FlatBit(before, k / 32, k % 32);
    }
  }

  /** Sets or clears `bits` bits from `bitoffset` on, or as many as there are, a longword at a time
      (`bmset` and `bmclr`). */
  method BmFill(bitmap: array<Long>, bitoffset: nat, bits: nat, v: bool) returns (done: nat)
    requires bitoffset <= 32 * bitmap.Length && bits > 0
    modifies bitmap
    ensures done == if bits < 32 * bitmap.Length - bitoffset then bits else 32 * bitmap.Length - bitoffset
    ensures forall k: nat :: k < 32 * bitmap.Length ==>
      Flat(bitmap[..])[k] == if bitoffset <= k < bitoffset + done then v else Flat(old(bitmap[..]))[k]
  {
    hide Bit, Flat, FilledUp;
    ghost var before, to := bitmap[..], bitoffset + bits;
    var scan: nat, offset: nat, left: int := bitoffset / 32, bitoffset % 32, bits;
    FilledStart(before, bitoffset, to, v, scan);
    if offset != 0 {
      FillLong(bitmap, scan, offset, if left < 32 then left else 32, v, before, bitoffset, to);
      scan, left := scan + 1, left - (32 - offset);
    }
    while left > 0 && scan < bitmap.Length
      invariant bitoffset / 32 <= scan <= bitmap.Length && left + 32 * scan == to && bitoffset <= 32 * scan
      invariant FilledUp(before, bitmap[..], bitoffset, to, v, scan)
    {
      if left > 31 {
        UniformBits(v);
        FilledMore(before, bitmap[..], bitoffset, to, v, scan, Uniform(v));
        bitmap[scan] := Uniform(v);
      } else {
        FillLong(bitmap, scan, 0, left, v, before, bitoffset, to);
      }
      scan, left := scan + 1, left - 32;
    }
    done := if left <= 0 then bits else bits - left;
    FilledFlat(before, bitmap[..], bitoffset, to, v, scan);
  }

  /** Sets or clears n bits of one longword. */
  method FillLong(bitmap: array<Long>, scan: nat, offset: nat, n: nat, v: bool, ghost before: seq<Long>,
                  ghost from: nat, ghost to: nat)
    requires scan < bitmap.Length && offset < 32 && 1 <= n <= 32 && FilledUp(before, bitmap[..], from, to, v, scan)
    requires if from <= 32 * scan then offset == 0 else from == 32 * scan + offset
    requires n == 32 || 32 * scan + offset + n == to
    requires 32 * scan + offset + n <= to
    modifies bitmap
    ensures FilledUp(before, bitmap[..], from, to, v, scan + 1)
  {
    hide Bit, FilledUp;
    BfFillBits(bitmap[scan], offset, n, v);
    FilledMore(before, bitmap[..], from, to, v, scan, BfFill(bitmap[scan], offset, n, v));
    bitmap[scan] := BfFill(bitmap[scan], offset, n, v);
  }

  lemma FilledStart(longs: seq<Long>, from: nat, to: nat, v: bool, scan: nat)
    requires 32 * scan <= from
    ensures FilledUp(longs, longs, from, to, v, scan)
  {
  }

  // ----- Searching a bitmap

  /** Up to long `scan` there is nothing but !v from `from` on. */
  lemma FirstFound(longs: seq<Long>, from: nat, v: bool, scan: nat, start: nat)
    requires scan < |longs| && start < 32 && from <= 32 * scan + start
    requires forall k: nat :: from <= k < 32 * scan + start ==> Flat(longs)[k] != v
    ensures var b := FirstBit(BitsOf(longs[scan]), start, v);
      && (b >= 0 ==> FirstBit(Flat(longs), from, v) == 32 * scan + b)
      && (b < 0 ==> forall k: nat :: from <= k < 32 * scan + 32 ==> Flat(longs)[k] != v)
  {
    hide Bit, Flat;
    var b := FirstBit(BitsOf(longs[scan]), start, v);
    forall i: nat | i < 32 ensures Flat(longs)[32 * scan + i] == Bit(longs[scan], i) {
      FlatBit(longs, scan, i);
    }
    forall k: nat | 32 * scan + start <= k < 32 * scan + (if b < 0 then 32 else b) ensures Flat(longs)[k] != v {
      assert BitsOf(longs[scan])[k - 32 * scan] != v;
    }
    if b >= 0 {
      FirstIs(Flat(longs), from, v, 32 * scan + b);
    }
  }

  lemma {:induction false} FirstIs(bits: seq<bool>, from: nat, v: bool, at: nat)
    requires from <= at < |bits| && bits[at] == v && forall k :: from <= k < at ==> bits[k] != v
    ensures FirstBit(bits, from, v) == at
    decreases at - from
  {
    if from < at { FirstIs(bits, from + 1, v, at); }
  }

  lemma NoneLeft(bits: seq<bool>, from: nat, v: bool)
    requires from <= |bits| && forall k :: from <= k < |bits| ==> bits[k] != v
    ensures FirstBit(bits, from, v) == -1
  {
  }

  /** First bit v of a bitmap from `bitoffset` on, or -1 (`bmffo` and `bmffz`). */
  method BmFirst(bitmap: seq<Long>, bitoffset: nat, v: bool) returns (r: int)
    requires bitoffset <= 32 * |bitmap|
    ensures r == FirstBit(Flat(bitmap), bitoffset, v)
  {
    hide Bit, Flat, FirstBit;
    var scan: nat, offset: nat := bitoffset / 32, bitoffset % 32;
    if offset != 0 {
      var bit := BfFirst(bitmap[scan], offset, v);
      FirstFound(bitmap, bitoffset, v, scan, offset);
      if bit >= 0 {
        return bit + 32 * scan;
      }
      scan := scan + 1;
    }
    while scan < |bitmap|
      invariant scan <= |bitmap| && bitoffset <= 32 * scan
      invariant forall k: nat :: bitoffset <= k < 32 * scan ==> Flat(bitmap)[k] != v
    {
      FirstFound(bitmap, bitoffset, v, scan, 0);
      WordHas(bitmap[scan], v);
      if bitmap[scan] != Uniform(!v) {
        var bit := BfFirst(bitmap[scan], 0, v);
        return bit + 32 * scan;
      }
      scan := scan + 1;
    }
    NoneLeft(Flat(bitmap), bitoffset, v);
    r := -1;
  }

  /** A longword has a bit v just if it is not all the other value. */
  lemma WordHas(w: Long, v: bool)
    ensures w != Uniform(!v) <==> FirstBit(BitsOf(w), 0, v) >= 0
  {
    hide Bit;
    UniformJust(w, !v);
    var b := FirstBit(BitsOf(w), 0, v);
    if b >= 0 {
      assert BitsOf(w)[b] == v;
    } else {
      forall i: nat | i < 32 ensures Bit(w, i) == !v { assert BitsOf(w)[i] != v; }
    }
  }
}
