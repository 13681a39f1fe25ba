/** The transaction log of FS/transactions.c: how operations are laid out as one stream of
    bytes, how `fillwithoperations` cuts the stream into blocks, and how `loadtransaction`
    reads the operations back. */
module Log {
  import opened Words
  import Ranges

  const OI_EMPTY: Byte := 1
  const OI_DELETE: Byte := 2

  /** Bytes of struct OperationInformation before its data. */
  const HEADER := 7

  /** Data of an operation: the length field, and the record size computed from it by
      `loadtransaction`, are 16 bits wide. */
  type Difference = d: seq<Byte> | |d| + HEADER + 1 < WORD_LIMIT

  /** One block modification.  `slack` is the byte behind the data that is copied along when
      the data has an even length. */
  datatype Operation = Operation(blckno: Long, bits: Byte, data: Difference, slack: Byte) {
    predicate IsEmpty() { bits % 2 == 1 }

    predicate IsDelete() { bits / 2 % 2 == 1 }
  }

  /** Size of the record of an operation with `len` bytes of data: (len | 1) + 7. */
  function RecordSize(len: nat): (n: nat)
    ensures n % 2 == 0 && n >= HEADER + 1
  {
    HEADER + len + 1 - len % 2
  }

  function Record(o: Operation): (r: seq<Byte>)
    ensures |r| == RecordSize(|o.data|)
  {
    WordBytes(|o.data|) + LongBytes(o.blckno) + [o.bits] + o.data + (if |o.data| % 2 == 0 then [o.slack] else [])
  }

  function Stream(ops: seq<Operation>): (s: seq<Byte>)
    ensures |s| % 2 == 0
  {
    if ops == [] then [] else Record(ops[0]) + Stream(ops[1..])
  }

  /** r is the record of some operation. */
  predicate IsRecord(r: seq<Byte>) {
    |r| >= 2 && |r| == RecordSize(WordOf(r[..2])) && |r| < WORD_LIMIT
  }

  /** The operation whose record is r. */
  function OperationOf(r: seq<Byte>): (o: Operation)
    requires IsRecord(r)
  {
    var len := WordOf(r[..2]);
    Operation(LongOf(r[2..6]), r[6], r[HEADER..HEADER + len], if len % 2 == 0 then r[HEADER + len] else 0)
  }

  /** What a record reads back as: the slack byte exists only behind data of even length. */
  function Stored(o: Operation): Operation {
    if |o.data| % 2 == 0 then o else o.(slack := 0)
  }

  function StoredAll(ops: seq<Operation>): (r: seq<Operation>)
    ensures |r| == |ops| && forall i :: 0 <= i < |ops| ==> r[i] == Stored(ops[i])
  {
    seq(|ops|, i requires 0 <= i < |ops| => Stored(ops[i]))
  }

  /** The operations in a stream, up to a zero length field or the end. */
  function Parse(s: seq<Byte>): (ops: seq<Operation>)
    decreases |s|
  {
    if |s| < 2 || WordOf(s[..2]) == 0 then []
    else
      var n := RecordSize(WordOf(s[..2]));
      if n <= |s| && n < WORD_LIMIT then (assert s[..n][..2] == s[..2]; [OperationOf(s[..n])] + Parse(s[n..])) else []
  }

  /** The stream does not end inside a record. */
  predicate Whole(s: seq<Byte>)
    decreases |s|
  {
    if |s| < 2 then s == []
    else if WordOf(s[..2]) == 0 then true
    else
      var n := RecordSize(WordOf(s[..2]));
      n <= |s| && n < WORD_LIMIT && Whole(s[n..])
  }

  // ----- The stream and its records

  lemma StreamNothing()
    ensures Stream([]) == []
  {
  }

  lemma StreamUnfold(ops: seq<Operation>)
    requires ops != []
    ensures Stream(ops) == Record(ops[0]) + Stream(ops[1..])
  {
  }

  lemma ParseNothing()
    ensures Parse([]) == [] && Whole([])
  {
  }

  lemma RecordReadsBack(o: Operation)
    ensures IsRecord(Record(o)) && WordOf(Record(o)[..2]) == |o.data|
    ensures OperationOf(Record(o)) == Stored(o)
  {
    var r, len := Record(o), |o.data|;
    assert r[..2] == WordBytes(len);
    assert r[2..6] == LongBytes(o.blckno);
    LongRoundTrip(o.blckno);
    assert r[HEADER..HEADER + len] == o.data;
  }

  /** A whole record in front of a stream parses as that record first. */
  lemma ParseRecord(r: seq<Byte>, tail: seq<Byte>)
    requires IsRecord(r) && WordOf(r[..2]) != 0
    ensures Parse(r + tail) == [OperationOf(r)] + Parse(tail)
    ensures Whole(r + tail) == Whole(tail)
  {
    var s := r + tail;
    assert s[..2] == r[..2];
    assert s[..|r|] == r && s[|r|..] == tail;
  }

  lemma ParseEnd(s: seq<Byte>)
    requires |s| >= 2 && WordOf(s[..2]) == 0
    ensures Parse(s) == [] && Whole(s)
  {
  }

  lemma WholeRecord(s: seq<Byte>)
    requires |s| >= 2 && WordOf(s[..2]) != 0 && Whole(s)
    ensures RecordSize(WordOf(s[..2])) <= |s| && RecordSize(WordOf(s[..2])) < WORD_LIMIT
  {
  }

  /** The operations that a log really preserves: those before the first with no data. */
  function Logged(ops: seq<Operation>): (l: seq<Operation>)
    ensures |l| <= |ops|
  {
    if ops == [] || ops[0].data == [] then [] else [ops[0]] + Logged(ops[1..])
  }

  lemma {:induction false} LoggedIsPrefix(ops: seq<Operation>)
    ensures Logged(ops) == ops[..|Logged(ops)|]
    ensures |Logged(ops)| < |ops| ==> ops[|Logged(ops)|].data == []
    ensures forall i :: 0 <= i < |Logged(ops)| ==> ops[i].data != []
  {
    if ops == [] || ops[0].data == [] {
    } else {
      LoggedIsPrefix(ops[1..]);
      var l := Logged(ops[1..]);
      assert ops[..|l| + 1] == [ops[0]] + ops[1..][..|l|];
      forall i | 0 <= i < |l| + 1 ensures ops[i].data != [] {
        if i > 0 { assert ops[i] == ops[1..][i - 1]; }
      }
    }
  }

  lemma ZeroLength(n: nat)
    requires n >= 2
    ensures WordOf(Zeros(n)[..2]) == 0
  {
  }

  /** Reading a log back yields exactly the operations in front of the first operation
      without data; a record with data never cuts the log short. */
  lemma {:induction false} ParseStream(ops: seq<Operation>, pad: nat)
    requires pad != 1
    ensures Parse(Stream(ops) + Zeros(pad)) == StoredAll(Logged(ops))
    ensures Whole(Stream(ops) + Zeros(pad))
  {
    hide Stream, Parse, Whole, Record, OperationOf, WordOf;
    if ops == [] {
      StreamNothing();
      ParseNothing();
      assert Stream(ops) + Zeros(pad) == Zeros(pad);
      if pad >= 2 {
        ZeroLength(pad);
        ParseEnd(Zeros(pad));
      } else {
        assert Zeros(pad) == [];
      }
    } else {
      StreamUnfold(ops);
      var r, tail := Record(ops[0]), Stream(ops[1..]) + Zeros(pad);
      assert Stream(ops) + Zeros(pad) == r + tail;
      RecordReadsBack(ops[0]);
      if ops[0].data == [] {
        assert (r + tail)[..2] == r[..2];
        ParseEnd(r + tail);
      } else {
        ParseStream(ops[1..], pad);
        ParseRecord(r, tail);
        assert StoredAll(Logged(ops)) == [Stored(ops[0])] + StoredAll(Logged(ops[1..]));
      }
    }
  }

  // ----- The stream cut into blocks

  /** The data areas of the blocks that hold stream s, `cap` bytes each, the last padded. */
  function Chunks(s: seq<Byte>, cap: nat): (c: seq<seq<Byte>>)
    requires cap > 0
    ensures |c| >= 1 && forall k :: 0 <= k < |c| ==> |c[k]| == cap
    decreases |s|
  {
    if |s| <= cap then [s + Zeros(cap - |s|)] else [s[..cap]] + Chunks(s[cap..], cap)
  }

  function Flatten(c: seq<seq<Byte>>): seq<Byte> {
    if c == [] then [] else c[0] + Flatten(c[1..])
  }

  lemma ChunksLast(s: seq<Byte>, cap: nat)
    requires cap > 0 && |s| <= cap
    ensures Flatten(Chunks(s, cap)) == s + Zeros(cap - |s|)
  {
    hide Zeros;
    assert Chunks(s, cap)[1..] == [];
    assert s + Zeros(cap - |s|) + [] == s + Zeros(cap - |s|);
  }

  lemma ChunksUnfold(s: seq<Byte>, cap: nat)
    requires cap > 0 && |s| > cap
    ensures Flatten(Chunks(s, cap)) == s[..cap] + Flatten(Chunks(s[cap..], cap))
  {
    assert Chunks(s, cap)[1..] == Chunks(s[cap..], cap);
  }

  lemma {:induction false} FlattenChunks(s: seq<Byte>, cap: nat) returns (pad: nat)
    requires cap > 0 && cap % 2 == 0 && |s| % 2 == 0
    ensures pad % 2 == 0
    ensures Flatten(Chunks(s, cap)) == s + Zeros(pad)
    decreases |s|
  {
    hide Zeros;
    hide Chunks, Flatten;
    if |s| <= cap {
      pad := cap - |s|;
      ChunksLast(s, cap);
    } else {
      pad := FlattenChunks(s[cap..], cap);
      ChunksUnfold(s, cap);
      assert s == s[..cap] + s[cap..];
    }
  }

  /** The log round trip: what is read back from the blocks of a log. */
  lemma LogRoundTrip(ops: seq<Operation>, cap: nat)
    requires cap > 0 && cap % 2 == 0
    ensures Whole(Flatten(Chunks(Stream(ops), cap)))
    ensures Parse(Flatten(Chunks(Stream(ops), cap))) == StoredAll(Logged(ops))
  {
    var pad := FlattenChunks(Stream(ops), cap);
    ParseStream(ops, pad);
  }

  /** The two bytes of a length field never end up in different blocks. */
  lemma {:induction false} LengthFieldWithinBlock(ops: seq<Operation>, i: nat, cap: nat)
    requires i < |ops| && cap > 0 && cap % 2 == 0
    ensures var offset := |Stream(ops[..i])|;
      && offset + 2 <= |Stream(ops)|
      && Stream(ops)[offset..offset + 2] == WordBytes(|ops[i].data|)
      && offset / cap == (offset + 1) / cap
  {
    hide Stream;
    StreamSplit(ops, i);
    StreamUnfold(ops[i..]);
    var offset := |Stream(ops[..i])|;
    assert Record(ops[i])[..2] == WordBytes(|ops[i].data|);
    assert ops[i..][0] == ops[i];
    assert Stream(ops)[offset..offset + 2] == Stream(ops[i..])[..2];
    EvenSteps(offset, cap);
  }

  /** Where the fields of an operation are in the stream: the length in two bytes and the block number
      in four, each with the highest byte first, the bits in the next, then the data, up to an even
      place. */
  lemma {:induction false} OperationLayout(ops: seq<Operation>, i: nat)
    requires i < |ops|
    ensures var s, at, o := Stream(ops), |Stream(ops[..i])|, ops[i];
      && at + 7 + |o.data| <= |s|
      && |o.data| == 0x100 * (s[at] as int) + s[at + 1] as int
      && o.blckno == 0x1000000 * (s[at + 2] as int) + 0x10000 * (s[at + 3] as int) + 0x100 * (s[at + 4] as int)
          + s[at + 5] as int
      && o.bits == s[at + 6]
      && o.data == s[at + 7..at + 7 + |o.data|]
      && |Stream(ops[..i + 1])| == if |o.data| % 2 == 0 then at + 8 + |o.data| else at + 7 + |o.data|
  {
    hide Stream, Record, WordOf, LongOf;
    var s, at, o := Stream(ops), |Stream(ops[..i])|, ops[i];
    StreamSplit(ops, i);
    StreamUnfold(ops[i..]);
    assert ops[i..][0] == o;
    var r := Record(o);
    assert forall k :: 0 <= k < |r| ==> s[at + k] == r[k];
    RecordLayout(o);
    assert s[at + 7..at + 7 + |o.data|] == r[7..7 + |o.data|];
    assert ops[..i + 1][..i] == ops[..i] && ops[..i + 1][i..] == [o];
    StreamSplit(ops[..i + 1], i);
    StreamUnfold([o]);
    assert [o][1..] == [];
    StreamNothing();
  }

  lemma RecordLayout(o: Operation)
    ensures var r := Record(o);
      && |r| == (if |o.data| % 2 == 0 then 8 + |o.data| else 7 + |o.data|)
      && |o.data| == 0x100 * (r[0] as int) + r[1] as int
      && o.blckno == 0x1000000 * (r[2] as int) + 0x10000 * (r[3] as int) + 0x100 * (r[4] as int) + r[5] as int
      && o.bits == r[6] && o.data == r[7..7 + |o.data|]
  {
    var r := Record(o);
    LongDigits(o.blckno);
    assert r[..2] == WordBytes(|o.data|) && r[2..6] == LongBytes(o.blckno);
  }

  /** The same when a stream is read: the first operation is made of these bytes, and the next one comes
      behind it. */
  lemma ParseLayout(s: seq<Byte>, len: nat)
    requires |s| >= 2 && Whole(s) && len == 0x100 * (s[0] as int) + s[1] as int
    ensures len == 0 ==> Parse(s) == []
    ensures len > 0 ==>
      var n := if len % 2 == 0 then 8 + len else 7 + len;
      && n <= |s| && Parse(s) != [] && Parse(s)[1..] == Parse(s[n..]) && Whole(s[n..])
      && Parse(s)[0].data == s[7..7 + len] && Parse(s)[0].bits == s[6]
      && Parse(s)[0].blckno == 0x1000000 * (s[2] as int) + 0x10000 * (s[3] as int) + 0x100 * (s[4] as int)
           + s[5] as int
  {
    LengthOf(s);
    hide Parse, Whole, OperationOf, LongOf, WordOf, IsRecord, RecordSize;
    if len == 0 {
      ParseEnd(s);
    } else {
      ParseFirst(s);
      OperationFields(s, RecordSize(len));
    }
  }

  lemma LengthOf(s: seq<Byte>)
    requires |s| >= 2
    ensures var len := 0x100 * (s[0] as int) + s[1] as int;
      WordOf(s[..2]) == len && RecordSize(len) == if len % 2 == 0 then 8 + len else 7 + len
  {
  }

  lemma ParseFirst(s: seq<Byte>)
    requires |s| >= 2 && WordOf(s[..2]) != 0 && Whole(s)
    ensures var n := RecordSize(WordOf(s[..2]));
      && n <= |s| && IsRecord(s[..n]) && WordOf(s[..n][..2]) == WordOf(s[..2])
      && Parse(s) == [OperationOf(s[..n])] + Parse(s[n..]) && Whole(s[n..])
  {
    hide Parse, Whole, OperationOf, WordOf;
    WholeRecord(s);
    var r := s[..RecordSize(WordOf(s[..2]))];
    assert s == r + s[|r|..] && r[..2] == s[..2];
    ParseRecord(r, s[|r|..]);
  }

  lemma OperationFields(s: seq<Byte>, n: nat)
    requires n <= |s| && IsRecord(s[..n])
    ensures var o, len := OperationOf(s[..n]), WordOf(s[..2]);
      && 7 + len <= n && o.data == s[7..7 + len] && o.bits == s[6]
      && o.blckno == 0x1000000 * (s[2] as int) + 0x10000 * (s[3] as int) + 0x100 * (s[4] as int) + s[5] as int
  {
    hide LongOf;
    var r := s[..n];
    assert r[..2] == s[..2];
    LongValue(r[2..6]);
    assert r[HEADER..HEADER + WordOf(r[..2])] == s[HEADER..HEADER + WordOf(r[..2])];
  }

  lemma EvenSteps(offset: nat, cap: nat)
    requires offset % 2 == 0 && cap > 0 && cap % 2 == 0
    ensures offset / cap == (offset + 1) / cap
  {
    var q, r, h := offset / cap, offset % cap, cap / 2;
    assert offset == cap * q + r == 2 * (h * q) + r by { assert cap * q == 2 * (h * q); }
    assert r % 2 == 0;
    assert r + 1 < cap;
    Ranges.DivideAt(offset + 1, cap, q);
  }

  lemma {:induction false} StreamSplit(ops: seq<Operation>, i: nat)
    requires i <= |ops|
    ensures Stream(ops) == Stream(ops[..i]) + Stream(ops[i..])
  {
    hide Stream, Record;
    if i == 0 {
      StreamNothing();
      assert ops[i..] == ops && ops[..i] == [];
    } else {
      StreamUnfold(ops);
      StreamUnfold(ops[..i]);
      StreamSplit(ops[1..], i - 1);
      assert ops[1..][..i - 1] == ops[..i][1..] && ops[1..][i - 1..] == ops[i..];
    }
  }

  // ----- The procedures

  /** Copies src to dest[d..]. */
  method CopyMem(src: seq<Byte>, dest: array<Byte>, d: nat)
    requires d + |src| <= dest.Length
    modifies dest
    ensures dest[..d + |src|] == old(dest[..d]) + src
    ensures dest[d + |src|..] == old(dest[d + |src|..])
  {
    ghost var start, rest := dest[..d], dest[d + |src|..];
    var i := 0;
    while i < |src|
      invariant i <= |src|
      invariant dest[..d + i] == start + src[..i]
      invariant dest[d + |src|..] == rest
    {
      ghost var done := dest[..d + i];
      dest[d + i] := src[i];
      assert dest[..d + i + 1] == done + [src[i]];
      i := i + 1;
    }
  }

  /** Fills a cleared data area with the next bytes of the log.  `o` is the next operation to
      start on and `src` what is left of the current record; both advance. */
  method FillWithOperations(data: array<Byte>, ops: seq<Operation>, o: nat, src: seq<Byte>)
    returns (o': nat, src': seq<Byte>, done: bool)
    requires o <= |ops|
    requires data[..] == Zeros(data.Length)
    modifies data
    ensures o <= o' <= |ops|
    ensures var pending := src + Stream(ops[o..]);
      if |pending| <= data.Length then
        data[..] == pending + Zeros(data.Length - |pending|) && src' + Stream(ops[o'..]) == [] && done
      else
        data[..] == pending[..data.Length] && src' + Stream(ops[o'..]) == pending[data.Length..] && !done
  {
    hide Stream, Record, Zeros, Filled;
    ghost var pending := src + Stream(ops[o..]);
    o', src' := o, src;
    var d := 0;
    FilledStart(data[..], pending);
    while d < data.Length
      invariant d <= data.Length && o <= o' <= |ops|
      invariant Filled(data[..], d, pending, src' + Stream(ops[o'..]))
      decreases |ops| - o', data.Length - d
    {
      if src' == [] {
        assert src' + Stream(ops[o'..]) == Stream(ops[o'..]);
        if o' == |ops| {
          StreamNothing();
          assert ops[o'..] == [];
          FilledUp(data[..], d, pending, []);
          return o', src', true;
        }
        StreamUnfold(ops[o'..]);
        src' := Record(ops[o']);
        assert ops[o'..][1..] == ops[o' + 1..];
        o' := o' + 1;
      }
      var n := Min(|src'|, data.Length - d);
      ghost var before := data[..];
      label L:
      CopyMem(src'[..n], data, d);
      assert before[..d] == old@L(data[..d]) && before[d + n..] == old@L(data[d + n..]);
      FilledMore(before, data[..], d, src', Stream(ops[o'..]), n, pending);
      src', d := src'[n..], d + n;
    }
    done := src' == [] && o' == |ops|;
    StreamNonempty(ops[o'..]);
    FilledUp(data[..], d, pending, src' + Stream(ops[o'..]));
  }

  /** data[..d] holds the front of `pending`, `rest` is what is left of it, and the area
      behind d is still clear. */
  ghost predicate Filled(data: seq<Byte>, d: nat, pending: seq<Byte>, rest: seq<Byte>) {
    d <= |data| && pending == data[..d] + rest && data[d..] == Zeros(|data| - d)
  }

  lemma FilledStart(data: seq<Byte>, pending: seq<Byte>)
    requires data == Zeros(|data|)
    ensures Filled(data, 0, pending, pending)
  {
    hide Zeros;
    assert data[0..] == data;
    assert pending == data[..0] + pending;
  }

  lemma FilledMore(before: seq<Byte>, after: seq<Byte>, d: nat, src: seq<Byte>, tail: seq<Byte>, n: nat,
                   pending: seq<Byte>)
    requires |before| == |after| && n <= |src| && d + n <= |before|
    requires Filled(before, d, pending, src + tail)
    requires after[..d + n] == before[..d] + src[..n] && after[d + n..] == before[d + n..]
    ensures Filled(after, d + n, pending, src[n..] + tail)
  {
    assert pending == before[..d] + (src + tail) == after[..d + n] + (src[n..] + tail);
    assert before[d + n..] == before[d..][n..];
    assert Zeros(|before| - d)[n..] == Zeros(|before| - d - n);
  }

  lemma FilledUp(data: seq<Byte>, d: nat, pending: seq<Byte>, rest: seq<Byte>)
    requires Filled(data, d, pending, rest)
    requires rest == [] || d == |data|
    ensures rest == [] ==> |pending| <= |data| && data == pending + Zeros(|data| - |pending|)
    ensures rest != [] ==> |pending| > |data| && data == pending[..|data|] && rest == pending[|data|..]
  {
    assert data == data[..d] + data[d..];
  }

  lemma StreamNonempty(ops: seq<Operation>)
    ensures Stream(ops) == [] <==> ops == []
  {
  }

  /** Between two blocks of the log, either no record is being read, or `rec` holds at least
      the length field of the current one and `length` bytes of it are still to come. */
  ghost predicate Between(rec: seq<Byte>, length: nat) {
    if rec == [] then length == 0
    else |rec| % 2 == 0 && WordOf(rec[..2]) != 0 && |rec| + length == RecordSize(WordOf(rec[..2])) < WORD_LIMIT
  }

  /** `rec` and the first `length` bytes of `rest` make up one record. */
  ghost predicate Reading(rec: seq<Byte>, length: nat, rest: seq<Byte>) {
    var all := rec + rest;
    && |all| >= 2 && |rec| % 2 == 0
    && WordOf(all[..2]) != 0 && |rec| + length == RecordSize(WordOf(all[..2])) < WORD_LIMIT
  }

  lemma BetweenReading(rec: seq<Byte>, length: nat, rest: seq<Byte>)
    requires rec != []
    ensures Between(rec, length) <==> Reading(rec, length, rest)
  {
    if |rec| % 2 == 0 {
      assert (rec + rest)[..2] == rec[..2];
    }
  }

  lemma ReadingMore(rec: seq<Byte>, length: nat, rest: seq<Byte>, n: nat)
    requires Reading(rec, length, rest) && n <= length && n <= |rest| && n % 2 == 0
    ensures Reading(rec + rest[..n], length - n, rest[n..])
    ensures rec + rest == (rec + rest[..n]) + rest[n..]
  {
    assert rec + rest == (rec + rest[..n]) + rest[n..];
  }

  lemma MinEven(a: nat, b: nat)
    requires a % 2 == 0 && b % 2 == 0
    ensures Min(a, b) % 2 == 0
  {
  }

  /** Reads the data area of one log block.  `ops` are the operations linked so far and `rec`
      the bytes of the one being filled in; `tail` is what the following blocks hold. */
  method LoadBlock(data: seq<Byte>, ops: seq<Operation>, rec: seq<Byte>, length: nat, ghost tail: seq<Byte>)
    returns (ops': seq<Operation>, rec': seq<Byte>, length': nat, done: bool)
    requires |data| % 2 == 0
    requires Between(rec, length) && Whole(rec + (data + tail))
    ensures Between(rec', length')
    ensures done ==> ops' == ops + Parse(rec + (data + tail))
    ensures !done ==> ops' + Parse(rec' + tail) == ops + Parse(rec + (data + tail))
    ensures !done ==> Whole(rec' + tail)
  {
    hide Parse, Whole, OperationOf, WordOf, RecordSize, Reading;
    ghost var all := rec + (data + tail);
    ops', rec', length', done := ops, rec, length, false;
    var src := 0;
    assert data[0..] == data;
    if rec != [] {
      BetweenReading(rec, length, data + tail);
    }
    while src != |data|
      invariant src <= |data| && src % 2 == 0 && length' % 2 == 0
      invariant rec' == [] && length' != 0 ==> src < |data|
      invariant rec' != [] || length' != 0 ==> Reading(rec', length', data[src..] + tail)
      invariant ops' + Parse(rec' + (data[src..] + tail)) == ops + Parse(all)
      invariant Whole(rec' + (data[src..] + tail))
      decreases |data| - src, if length' == 0 then 1 else 0
    {
      ghost var rest := data[src..] + tail;
      if length' != 0 {
        var n := Min(length', |data| - src);
        MinEven(length', |data| - src);
        ReadingMore(rec', length', rest, n);
        Front(data, src, n, tail);
        rec', src, length' := rec' + data[src..src + n], src + n, length' - n;
      } else {
        var len := WordOf(data[src..src + 2]);
        Front(data, src, 2, tail);
        if rec' != [] {
          BetweenReading(rec', length', rest);
          ParseRecord(rec', rest);
          ops', rec' := ops' + [OperationOf(rec')], [];
        }
        assert rec' + rest == rest;
        if len == 0 {
          ParseEnd(rest);
          done := true;
          return;
        }
        WholeRecord(rest);
        length' := RecordSize(len);
        StartReading(rest);
      }
    }
    assert data[src..] + tail == tail;
    if rec' != [] {
      BetweenReading(rec', length', tail);
    }
  }

  lemma Front(data: seq<Byte>, src: nat, n: nat, tail: seq<Byte>)
    requires src + n <= |data|
    ensures var rest := data[src..] + tail; rest[..n] == data[src..src + n] && rest[n..] == data[src + n..] + tail
  {
  }

  lemma StartReading(rest: seq<Byte>)
    requires |rest| >= 2 && WordOf(rest[..2]) != 0 && RecordSize(WordOf(rest[..2])) < WORD_LIMIT
    ensures Reading([], RecordSize(WordOf(rest[..2])), rest)
  {
    assert [] + rest == rest;
  }
}
