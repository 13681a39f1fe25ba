/** The compressed block difference of FS/support.c (the LONGCOMPRESSION scheme).

    `Encode` is the greedy encoder as a function: `same[i]` says whether long i of the
    latest block equals long i of the original.  Compressing "from zero" has no original,
    so there every flag is false.  `Decode` is the meaning of an encoding: what it does
    to the block it is applied to. */
module Diff {
  import opened Words

  const MAX_RUN := 64

  // ----- The token language

  /** One code byte with what it stands for. */
  datatype Token = Keep(n: nat) | Zero(n: nat) | Ones(n: nat) | Literal(longs: seq<Long>)

  function Span(t: Token): nat {
    match t
    case Keep(n) => n
    case Zero(n) => n
    case Ones(n) => n
    case Literal(longs) => |longs|
  }

  function TokenBytes(t: Token): seq<Byte>
    requires 1 <= Span(t) <= MAX_RUN
  {
    match t
    case Zero(n) => [n - 1]
    case Keep(n) => [0x40 + n - 1]
    case Ones(n) => [0x80 + n - 1]
    case Literal(longs) => [0xC0 + |longs| - 1] + BytesOf(longs)
  }

  /** What a token leaves behind in the longs `x` it covers. */
  function Written(x: seq<Long>, t: Token): (y: seq<Long>)
    requires |x| == Span(t)
  {
    match t
    case Keep(_) => x
    case Zero(_) => seq(|x|, _ => 0)
    case Ones(_) => seq(|x|, _ => ALL_ONES)
    case Literal(longs) => longs
  }

  /** Number of longs covered by the code byte at the front of `data`. */
  function Covered(data: seq<Byte>): (n: nat)
    requires data != []
    ensures 1 <= n <= MAX_RUN
  {
    data[0] % 0x40 + 1
  }

  /** Number of bytes taken by the code byte at the front of `data` and its literal longs. */
  function Size(data: seq<Byte>): (n: nat)
    requires data != []
    ensures n >= 1
  {
    if data[0] < 0xC0 then 1 else 1 + 4 * Covered(data)
  }

  /** Does decoding `data` stay within a block of `n` longs and within `data` itself? */
  predicate Fits(n: nat, data: seq<Byte>)
    decreases |data|
  {
    data == [] || (Covered(data) <= n && Size(data) <= |data| && Fits(n - Covered(data), data[Size(data)..]))
  }

  /** What the code byte at the front of `data` makes of the longs it covers. */
  function Effect(x: seq<Long>, data: seq<Byte>): (y: seq<Long>)
    requires data != [] && |x| == Covered(data) && Size(data) <= |data|
    ensures |y| == |x|
  {
    if data[0] < 0x40 then seq(|x|, _ => 0)
    else if data[0] < 0x80 then x
    else if data[0] < 0xC0 then seq(|x|, _ => ALL_ONES)
    else LongsOf(data[1..1 + 4 * |x|])
  }

  /** The block that results from applying `data` to block `x`. */
  function Decode(x: seq<Long>, data: seq<Byte>): (y: seq<Long>)
    requires Fits(|x|, data)
    ensures |y| == |x|
    decreases |data|
  {
    if data == [] then x
    else Effect(x[..Covered(data)], data) + Decode(x[Covered(data)..], data[Size(data)..])
  }

  // ----- The greedy encoder

  /** Number of leading `true`s, at most `max`. */
  function Leading(flags: seq<bool>, max: nat): (k: nat)
    requires max <= |flags|
    ensures k <= max
    ensures forall i :: 0 <= i < k ==> flags[i]
    ensures k < max ==> !flags[k]
  {
    if max == 0 || !flags[0] then 0 else 1 + Leading(flags[1..], max - 1)
  }

  function Equals(latest: seq<Long>, v: Long): (f: seq<bool>)
    ensures |f| == |latest| && forall i :: 0 <= i < |f| ==> f[i] == (latest[i] == v)
  {
    seq(|latest|, i requires 0 <= i < |latest| => latest[i] == v)
  }

  /** The longs that neither kept, cleared nor set runs can cover. */
  function Plain(same: seq<bool>, latest: seq<Long>): (f: seq<bool>)
    requires |same| == |latest|
    ensures |f| == |latest|
    ensures forall i :: 0 <= i < |f| ==> f[i] == (!same[i] && latest[i] != 0 && latest[i] != ALL_ONES)
  {
    seq(|latest|, i requires 0 <= i < |latest| => !same[i] && latest[i] != 0 && latest[i] != ALL_ONES)
  }

  /** The token the encoder emits first: the longest of the kept, cleared and set runs at
      the front wins, kept on a tie; a literal run only if all three are empty. */
  function FirstToken(same: seq<bool>, latest: seq<Long>): (t: Token)
    requires |same| == |latest| > 0
    ensures 1 <= Span(t) <= Min(MAX_RUN, |latest|)
    ensures t.Keep? ==> forall i :: 0 <= i < Span(t) ==> same[i]
    ensures t.Zero? ==> forall i :: 0 <= i < Span(t) ==> latest[i] == 0
    ensures t.Ones? ==> forall i :: 0 <= i < Span(t) ==> latest[i] == ALL_ONES
    ensures t.Literal? ==> t.longs == latest[..Span(t)]
    ensures t.Literal? && Span(t) < Min(MAX_RUN, |latest|) ==> !Plain(same, latest)[Span(t)]
  {
    var max := Min(MAX_RUN, |latest|);
    var kept := Leading(same, max);
    var cleared := if kept < max then Leading(Equals(latest, 0), max) else 0;
    var ones := if kept < max then Leading(Equals(latest, ALL_ONES), max) else 0;
    if kept != 0 || cleared != ones then
      if kept >= cleared && kept >= ones then Keep(kept)
      else if cleared != 0 then Zero(cleared)
      else Ones(ones)
    else
      Literal(latest[..Leading(Plain(same, latest), max)])
  }

  function Encode(same: seq<bool>, latest: seq<Long>): seq<Byte>
    requires |same| == |latest|
    decreases |latest|
  {
    if latest == [] then []
    else
      var t := FirstToken(same, latest);
      TokenBytes(t) + Encode(same[Span(t)..], latest[Span(t)..])
  }

  /** Which longs of `latest` are unchanged from `org`. */
  function SameAs(org: seq<Long>, latest: seq<Long>): (same: seq<bool>)
    requires |org| == |latest|
    ensures |same| == |latest| && forall i :: 0 <= i < |same| ==> same[i] == (org[i] == latest[i])
  {
    seq(|latest|, i requires 0 <= i < |latest| => org[i] == latest[i])
  }

  function Never(n: nat): (same: seq<bool>)
    ensures |same| == n && forall i :: 0 <= i < n ==> !same[i]
  {
    seq(n, _ => false)
  }

  // ----- One step of each recursion

  lemma EncodeNothing()
    ensures Encode([], []) == []
  {
  }

  lemma EncodeUnfold(same: seq<bool>, image: seq<Long>)
    requires |same| == |image| > 0
    ensures var t := FirstToken(same, image);
      Encode(same, image) == TokenBytes(t) + Encode(same[Span(t)..], image[Span(t)..])
  {
  }

  lemma DecodeNothing(x: seq<Long>)
    ensures Fits(|x|, []) && Decode(x, []) == x
  {
  }

  lemma DecodeUnfold(x: seq<Long>, data: seq<Byte>)
    requires data != [] && Covered(data) <= |x| && Size(data) <= |data|
    requires Fits(|x| - Covered(data), data[Size(data)..])
    ensures Fits(|x|, data)
    ensures Decode(x, data) == Effect(x[..Covered(data)], data) + Decode(x[Covered(data)..], data[Size(data)..])
  {
  }

  // ----- The bytes

  /** What each code byte stands for: 0 to 63 clears, 64 to 127 keeps and 128 to 191 sets so many longs and
      one more; from 192 on as many longs follow, each with its highest byte first. */
  lemma CodeBytes(x: seq<Long>, data: seq<Byte>, n: nat)
    requires data != [] && Fits(|x|, data) && n == data[0] % 64 + 1
    ensures var size := if data[0] < 192 then 1 else 1 + 4 * n;
      && n <= |x| && size <= |data| && Fits(|x| - n, data[size..])
      && Decode(x, data)[n..] == Decode(x[n..], data[size..])
    ensures data[0] < 64 ==> forall i :: 0 <= i < n ==> Decode(x, data)[i] == 0
    ensures 64 <= data[0] < 128 ==> forall i :: 0 <= i < n ==> Decode(x, data)[i] == x[i]
    ensures 128 <= data[0] < 192 ==> forall i :: 0 <= i < n ==> Decode(x, data)[i] == 0xFFFF_FFFF
  {
    hide Decode, LongsOf, Fits;
    FitsUnfold(|x|, data);
    DecodeUnfold(x, data);
  }

  lemma LiteralBytes(x: seq<Long>, data: seq<Byte>, n: nat, i: nat, p: nat)
    requires data != [] && Fits(|x|, data) && data[0] >= 192 && n == data[0] % 64 + 1 && i < n && p == 1 + 4 * i
    ensures i < |x| && p + 4 <= |data|
    ensures Decode(x, data)[i]
         == 0x1000000 * (data[p] as int) + 0x10000 * (data[p + 1] as int) + 0x100 * (data[p + 2] as int)
           + data[p + 3] as int
  {
    LiteralLongs(x, data, n);
    hide *;
    var b := data[1..1 + 4 * n];
    LongAt(b, i, p - 1);
    assert b[p - 1] == data[p] && b[p] == data[p + 1] && b[p + 1] == data[p + 2] && b[p + 2] == data[p + 3];
  }

  lemma LiteralLongs(x: seq<Long>, data: seq<Byte>, n: nat)
    requires data != [] && Fits(|x|, data) && data[0] >= 192 && n == data[0] % 64 + 1
    ensures n <= |x| && 1 + 4 * n <= |data| && |data[1..1 + 4 * n]| % 4 == 0
    ensures Decode(x, data)[..n] == LongsOf(data[1..1 + 4 * n])
  {
    hide Decode, LongsOf, Fits;
    FitsUnfold(|x|, data);
    DecodeUnfold(x, data);
  }

  lemma LongAt(b: seq<Byte>, i: nat, p: nat)
    requires |b| % 4 == 0 && p == 4 * i && p < |b|
    ensures LongsOf(b)[i]
         == 0x1000000 * (b[p] as int) + 0x10000 * (b[p + 1] as int) + 0x100 * (b[p + 2] as int) + b[p + 3] as int
  {
    hide LongOf, LongsOf;
    LongsOfAt(b, i);
    LongValue(b[p..p + 4]);
  }

  lemma FitsUnfold(n: nat, data: seq<Byte>)
    requires data != [] && Fits(n, data)
    ensures Covered(data) <= n && Size(data) <= |data| && Fits(n - Covered(data), data[Size(data)..])
  {
  }

  /** The encoder takes the longest run: none of the other kinds is longer, and of runs of the same length
      the kept one. */
  lemma GreedyToken(same: seq<bool>, latest: seq<Long>)
    requires |same| == |latest| > 0
    ensures var t, max := FirstToken(same, latest), if |latest| < 64 then |latest| else 64;
      var n := Span(t);
      && n <= max
      && (n < max ==> match t
           case Keep(_) => !same[n]
           case Zero(_) => latest[n] != 0
           case Ones(_) => latest[n] != ALL_ONES
           case Literal(_) => same[n] || latest[n] == 0 || latest[n] == ALL_ONES)
      && match t
         case Keep(_) =>
           n < max ==> (exists i :: 0 <= i <= n && latest[i] != 0) && exists i :: 0 <= i <= n && latest[i] != ALL_ONES
         case Zero(_) => exists i :: 0 <= i < n && !same[i]
         case Ones(_) => exists i :: 0 <= i < n && !same[i]
         case Literal(_) => forall i :: 0 <= i < n ==> !same[i] && latest[i] != 0 && latest[i] != ALL_ONES
  {
  }

  // ----- What an encoding means

  /** x agrees with `latest` wherever the encoder took the original to be unchanged. */
  ghost predicate Agrees(x: seq<Long>, same: seq<bool>, latest: seq<Long>) {
    && |x| == |same| == |latest|
    && forall i :: 0 <= i < |x| && same[i] ==> x[i] == latest[i]
  }

  /** x is a block caught half-way through being rewritten from `org` to `latest`. */
  ghost predicate Torn(x: seq<Long>, org: seq<Long>, latest: seq<Long>) {
    && |x| == |org| == |latest|
    && forall i :: 0 <= i < |x| ==> x[i] == org[i] || x[i] == latest[i]
  }

  /** A token followed by `rest` reads back as that token and `rest`. */
  lemma TokenReadsBack(x: seq<Long>, t: Token, rest: seq<Byte>)
    requires 1 <= Span(t) <= MAX_RUN && Span(t) == |x|
    ensures var data := TokenBytes(t) + rest;
      && Covered(data) == Span(t) && Size(data) <= |data| && data[Size(data)..] == rest
      && Effect(x, data) == Written(x, t)
  {
    var data := TokenBytes(t) + rest;
    assert data[0] == TokenBytes(t)[0];
    assert data[..|TokenBytes(t)|] == TokenBytes(t) && data[|TokenBytes(t)|..] == rest;
    if t.Literal? {
      assert data[1..1 + 4 * Span(t)] == BytesOf(t.longs);
      LongsOfBytesOf(t.longs);
    }
  }

  /** One token at the front of `data` is decoded as it was meant. */
  lemma DecodeToken(x: seq<Long>, t: Token, rest: seq<Byte>)
    requires 1 <= Span(t) <= MAX_RUN && Span(t) <= |x|
    requires Fits(|x| - Span(t), rest)
    ensures Fits(|x|, TokenBytes(t) + rest)
    ensures Decode(x, TokenBytes(t) + rest) == Written(x[..Span(t)], t) + Decode(x[Span(t)..], rest)
  {
    hide *;
    TokenReadsBack(x[..Span(t)], t, rest);
    DecodeUnfold(x, TokenBytes(t) + rest);
  }

  /** A token writes the new longs wherever it covers longs that agree. */
  lemma TokenWrites(x: seq<Long>, same: seq<bool>, latest: seq<Long>)
    requires Agrees(x, same, latest) && latest != []
    ensures var t := FirstToken(same, latest); Written(x[..Span(t)], t) == latest[..Span(t)]
  {
    hide Leading, Equals, Plain;
  }

  /** The encoder's central law: an encoding rebuilds `latest` from every block that agrees
      with it on the longs taken to be unchanged. */
  lemma {:induction false} EncodeReplays(x: seq<Long>, same: seq<bool>, latest: seq<Long>)
    requires Agrees(x, same, latest)
    ensures Fits(|x|, Encode(same, latest)) && Decode(x, Encode(same, latest)) == latest
    decreases |latest|
  {
    hide Encode, Decode, Fits, FirstToken, Written, TokenBytes;
    if latest == [] {
      EncodeNothing();
      DecodeNothing(x);
    } else {
      var t := FirstToken(same, latest);
      var n := Span(t);
      EncodeUnfold(same, latest);
      EncodeReplays(x[n..], same[n..], latest[n..]);
      DecodeToken(x, t, Encode(same[n..], latest[n..]));
      TokenWrites(x, same, latest);
      assert latest == latest[..n] + latest[n..];
    }
  }

  /** A block difference turns every torn mixture of the original and the latest block into
      the latest block: it can be applied again after a crash in the middle of a rewrite. */
  lemma TornReplay(x: seq<Long>, org: seq<Long>, latest: seq<Long>)
    requires Torn(x, org, latest)
    ensures Fits(|x|, Encode(SameAs(org, latest), latest))
    ensures Decode(x, Encode(SameAs(org, latest), latest)) == latest
  {
    EncodeReplays(x, SameAs(org, latest), latest);
  }

  /** A block compressed from zero is rebuilt over any contents at all: a buffer need not
      be cleared before an "empty" operation is applied to it. */
  lemma FromZeroReplay(x: seq<Long>, latest: seq<Long>)
    requires |x| == |latest|
    ensures Fits(|x|, Encode(Never(|latest|), latest))
    ensures Decode(x, Encode(Never(|latest|), latest)) == latest
  {
    EncodeReplays(x, Never(|latest|), latest);
  }

  /** Every long covered by a kept run of the encoding already has its new value in x. */
  ghost predicate KeptLongsIntact(x: seq<Long>, same: seq<bool>, latest: seq<Long>)
    requires |x| == |same| == |latest|
    decreases |latest|
  {
    latest == [] ||
    var t := FirstToken(same, latest);
    (t.Keep? ==> x[..Span(t)] == latest[..Span(t)]) && KeptLongsIntact(x[Span(t)..], same[Span(t)..], latest[Span(t)..])
  }

  lemma SplitEqual<T>(a: seq<T>, b: seq<T>, c: seq<T>, d: seq<T>)
    requires |a| == |c|
    ensures a + b == c + d <==> a == c && b == d
  {
    if a + b == c + d {
      assert a == (a + b)[..|a|] && b == (a + b)[|a|..] && c == (c + d)[..|c|] && d == (c + d)[|c|..];
    }
  }

  /** A difference rebuilds the new block from exactly those blocks whose kept longs are
      intact, so a rewrite may be repeated after a crash but not after foreign writes. */
  lemma {:induction false} DecodeExactly(x: seq<Long>, same: seq<bool>, latest: seq<Long>)
    requires |x| == |same| == |latest|
    ensures Fits(|x|, Encode(same, latest))
    ensures Decode(x, Encode(same, latest)) == latest <==> KeptLongsIntact(x, same, latest)
    decreases |latest|
  {
    hide Encode, Decode, Fits, FirstToken, TokenBytes;
    if latest == [] {
      EncodeNothing();
      DecodeNothing(x);
    } else {
      var t := FirstToken(same, latest);
      var n := Span(t);
      var rest := Encode(same[n..], latest[n..]);
      EncodeUnfold(same, latest);
      DecodeExactly(x[n..], same[n..], latest[n..]);
      DecodeToken(x, t, rest);
      SplitEqual(Written(x[..n], t), Decode(x[n..], rest), latest[..n], latest[n..]);
      assert latest == latest[..n] + latest[n..];
      if !t.Keep? {
        TokenWrites(latest, same, latest);
        assert Written(x[..n], t) == Written(latest[..n], t);
      }
    }
  }

  // ----- Size

  /** Worst-case size of an encoding of n longs. */
  function Bound(n: nat): nat {
    4 * n + (n + MAX_RUN - 1) / MAX_RUN
  }

  lemma {:induction false} EncodeBound(same: seq<bool>, latest: seq<Long>)
    requires |same| == |latest|
    ensures |Encode(same, latest)| <= Bound(|latest|)
    ensures latest != [] ==> 1 <= |Encode(same, latest)|
    ensures latest != [] && !FirstToken(same, latest).Literal? ==> |Encode(same, latest)| < Bound(|latest|) - 2
    decreases |latest|
  {
    if latest == [] {
    } else {
      var t := FirstToken(same, latest);
      var n := Span(t);
      EncodeBound(same[n..], latest[n..]);
      if t.Literal? && n < MAX_RUN && n < |latest| {
        // a short literal run is followed by a run that takes one byte for one or more longs
        assert !Plain(same, latest)[n];
        NotPlainFirst(same[n..], latest[n..]);
      }
    }
  }

  lemma NotPlainFirst(same: seq<bool>, latest: seq<Long>)
    requires |same| == |latest| > 0
    requires same[0] || latest[0] == 0 || latest[0] == ALL_ONES
    ensures !FirstToken(same, latest).Literal?
  {
  }

  /** The compress buffer of bytes_block + bytes_block / 16 bytes always suffices. */
  lemma CompressBufferSuffices(same: seq<bool>, latest: seq<Long>)
    requires |same| == |latest| >= 4
    ensures |Encode(same, latest)| <= 4 * |latest| + 4 * |latest| / 16
  {
    EncodeBound(same, latest);
  }

  // ----- The procedures

  lemma LeadingIs(flags: seq<bool>, max: nat, k: nat)
    requires k <= max <= |flags|
    requires forall i :: 0 <= i < k ==> flags[i]
    requires k < max ==> !flags[k]
    ensures Leading(flags, max) == k
  {
  }

  /** Length of the run of unchanged longs at p, at most `max`. */
  method UnchangedRun(org: array<Long>, latest: array<Long>, p: nat, max: nat) returns (k: nat)
    requires org.Length == latest.Length && p + max <= latest.Length
    ensures k <= max
    ensures k == Leading(SameAs(org[..], latest[..])[p..], max)
  {
    k := 0;
    while k < max && org[p + k] == latest[p + k]
      invariant k <= max
      invariant forall i :: p <= i < p + k ==> org[i] == latest[i]
    {
      k := k + 1;
    }
    LeadingIs(SameAs(org[..], latest[..])[p..], max, k);
  }

  /** Length of the run of longs equal to v at p, at most `max`. */
  method ValueRun(latest: array<Long>, p: nat, v: Long, max: nat) returns (k: nat)
    requires p + max <= latest.Length
    ensures k <= max
    ensures k == Leading(Equals(latest[p..], v), max)
  {
    k := 0;
    while k < max && latest[p + k] == v
      invariant k <= max
      invariant forall i :: p <= i < p + k ==> latest[i] == v
    {
      k := k + 1;
    }
    LeadingIs(Equals(latest[p..], v), max, k);
  }

  /** Length of the literal run at p when there is an original, at most `max`. */
  method ChangedRun(org: array<Long>, latest: array<Long>, p: nat, max: nat) returns (k: nat)
    requires org.Length == latest.Length && p + max <= latest.Length
    ensures k <= max
    ensures k == Leading(Plain(SameAs(org[..], latest[..])[p..], latest[p..]), max)
  {
    k := 0;
    while k < max && latest[p + k] != 0 && latest[p + k] != ALL_ONES && org[p + k] != latest[p + k]
      invariant k <= max
      invariant forall i :: p <= i < p + k ==> org[i] != latest[i] && latest[i] != 0 && latest[i] != ALL_ONES
    {
      k := k + 1;
    }
    LeadingIs(Plain(SameAs(org[..], latest[..])[p..], latest[p..]), max, k);
  }

  /** Length of the literal run at p when there is no original, at most `max`. */
  method LiteralRun(latest: array<Long>, p: nat, max: nat) returns (k: nat)
    requires p + max <= latest.Length
    ensures k <= max
    ensures k == Leading(Plain(Never(latest.Length)[p..], latest[p..]), max)
  {
    k := 0;
    while k < max && latest[p + k] != 0 && latest[p + k] != ALL_ONES
      invariant k <= max
      invariant forall i :: p <= i < p + k ==> latest[i] != 0 && latest[i] != ALL_ONES
    {
      k := k + 1;
    }
    LeadingIs(Plain(Never(latest.Length)[p..], latest[p..]), max, k);
  }

  /** Appends the longs latest[p..p + k] to dest[..d], four bytes each. */
  method CopyLongs(latest: array<Long>, p: nat, k: nat, dest: array<Byte>, d: nat)
    requires p + k <= latest.Length && d + 4 * k <= dest.Length
    modifies dest
    ensures dest[..d + 4 * k] == old(dest[..d]) + BytesOf(latest[p..p + k])
  {
    hide BytesOf, LongBytes;
    ghost var start := dest[..d];
    BytesOfNothing();
    assert latest[p..p] == [];
    var i := 0;
    while i < k
      invariant i <= k
      invariant dest[..d + 4 * i] == start + BytesOf(latest[p..p + i])
    {
      ghost var done := dest[..d + 4 * i];
      var b, e := LongBytes(latest[p + i]), d + 4 * i;
      BytesOfSnoc(latest[p..p + i], latest[p + i]);
      assert latest[p..p + i + 1] == latest[p..p + i] + [latest[p + i]];
      dest[e], dest[e + 1], dest[e + 2], dest[e + 3] := b[0], b[1], b[2], b[3];
      assert dest[..e + 4] == done + b;
      i := i + 1;
    }
  }

  /** Emitting the next token keeps `done` plus what is still to be encoded the same. */
  lemma EncodeStep(done: seq<Byte>, same: seq<bool>, image: seq<Long>, p: nat, code: seq<Byte>)
    requires |same| == |image| && p < |image|
    requires done + Encode(same[p..], image[p..]) == code
    ensures var t := FirstToken(same[p..], image[p..]);
      && p + Span(t) <= |image| && |done| + |TokenBytes(t)| <= |code|
      && done + TokenBytes(t) + Encode(same[p + Span(t)..], image[p + Span(t)..]) == code
  {
    hide Encode;
    var t := FirstToken(same[p..], image[p..]);
    EncodeUnfold(same[p..], image[p..]);
    assert same[p..][Span(t)..] == same[p + Span(t)..] && image[p..][Span(t)..] == image[p + Span(t)..];
  }

  /** The encoder's choice between the runs found at the front of the block. */
  lemma ChooseToken(same: seq<bool>, image: seq<Long>, kept: nat, cleared: nat, ones: nat)
    requires |same| == |image| > 0
    requires var max := Min(MAX_RUN, |image|);
      && kept == Leading(same, max)
      && cleared == (if kept < max then Leading(Equals(image, 0), max) else 0)
      && ones == (if kept < max then Leading(Equals(image, ALL_ONES), max) else 0)
    ensures FirstToken(same, image) ==
      if kept != 0 || cleared != ones then
        if kept >= cleared && kept >= ones then Keep(kept) else if cleared != 0 then Zero(cleared) else Ones(ones)
      else Literal(image[..Leading(Plain(same, image), Min(MAX_RUN, |image|))])
  {
  }

  /** Appends a code byte and k literal longs to dest[..d]. */
  method PutToken(dest: array<Byte>, d: nat, code: Byte, latest: array<Long>, p: nat, k: nat) returns (e: nat)
    requires p + k <= latest.Length && d + 1 + 4 * k <= dest.Length
    modifies dest
    ensures e == d + 1 + 4 * k
    ensures dest[..e] == old(dest[..d]) + ([code] + BytesOf(latest[p..p + k]))
  {
    hide BytesOf;
    dest[d] := code;
    assert dest[..d + 1] == old(dest[..d]) + [code];
    CopyLongs(latest, p, k, dest, d + 1);
    e := d + 1 + 4 * k;
  }

  /** The code byte for the longest of the runs found. */
  method RunCode(kept: nat, cleared: nat, ones: nat) returns (code: Byte, x: nat)
    requires (kept != 0 || cleared != ones) && kept <= MAX_RUN && cleared <= MAX_RUN && ones <= MAX_RUN
    ensures var t := if kept >= cleared && kept >= ones then Keep(kept)
                     else if cleared != 0 then Zero(cleared) else Ones(ones);
      1 <= Span(t) <= MAX_RUN && x == Span(t) && TokenBytes(t) == [code]
  {
    if kept >= cleared && kept >= ones {
      code, x := 0x40 + kept - 1, kept;
    } else if cleared != 0 {
      code, x := cleared - 1, cleared;
    } else {
      code, x := 0x80 + ones - 1, ones;
    }
  }

  /** The token for the longs from p: its code byte, the x longs it covers, and how many of
      them (k) follow the code byte as literals. */
  method Choose(org: array<Long>, latest: array<Long>, p: nat) returns (code: Byte, x: nat, k: nat)
    requires p < latest.Length == org.Length
    ensures k == 0 || k == x
    ensures p + k <= latest.Length
    ensures var t := FirstToken(SameAs(org[..], latest[..])[p..], latest[p..]);
      x == Span(t) && [code] + BytesOf(latest[p..p + k]) == TokenBytes(t)
  {
    hide FirstToken, Leading, SameAs, Plain, Never, Equals, BytesOf;
    ghost var same, image := SameAs(org[..], latest[..])[p..], latest[p..];
    var max := Min(latest.Length - p, MAX_RUN);
    var kept := UnchangedRun(org, latest, p, max);
    var cleared, ones := 0, 0;
    if kept < max {
      cleared := ValueRun(latest, p, 0, max);
      ones := ValueRun(latest, p, ALL_ONES, max);
    }
    ChooseToken(same, image, kept, cleared, ones);
    if kept != 0 || cleared != ones {
      code, x := RunCode(kept, cleared, ones);
      k := 0;
      assert latest[p..p + k] == [];
    } else {
      x := ChangedRun(org, latest, p, max);
      code, k := 0xC0 + x - 1, x;
      assert image[..x] == latest[p..p + x];
    }
  }

  /** The token for the longs from p: its code byte, the x longs it covers, and how many of
      them (k) follow the code byte as literals. */
  method ChooseFromZero(latest: array<Long>, p: nat) returns (code: Byte, x: nat, k: nat)
    requires p < latest.Length
    ensures k == 0 || k == x
    ensures p + k <= latest.Length
    ensures var t := FirstToken(Never(latest.Length)[p..], latest[p..]);
      x == Span(t) && [code] + BytesOf(latest[p..p + k]) == TokenBytes(t)
  {
    hide FirstToken, Leading, SameAs, Plain, Never, Equals, BytesOf;
    ghost var same, image := Never(latest.Length)[p..], latest[p..];
    var max := Min(latest.Length - p, MAX_RUN);
    var cleared := ValueRun(latest, p, 0, max);
    var ones := ValueRun(latest, p, ALL_ONES, max);
    LeadingIs(same, max, 0);
    ChooseToken(same, image, 0, cleared, ones);
    if cleared != ones {
      code, x := RunCode(0, cleared, ones);
      k := 0;
      assert latest[p..p + k] == [];
    } else {
      x := LiteralRun(latest, p, max);
      code, k := 0xC0 + x - 1, x;
      assert image[..x] == latest[p..p + x];
    }
  }

  /** Compresses the change from `org` to `latest` into `dest`. */
  method Compress(org: array<Long>, latest: array<Long>, dest: array<Byte>) returns (length: nat)
    requires org.Length == latest.Length
    requires Bound(latest.Length) <= dest.Length
    modifies dest
    ensures length <= Bound(latest.Length)
    ensures dest[..length] == Encode(SameAs(org[..], latest[..]), latest[..])
  {
    hide Encode, FirstToken, SameAs, Never, TokenBytes, Bound, BytesOf;
    ghost var same, image := SameAs(org[..], latest[..]), latest[..];
    ghost var encoding := Encode(same, image);
    EncodeBound(same, image);
    assert same[0..] == same && image[0..] == image;
    var p := 0;
    length := 0;
    while p < latest.Length
      invariant p <= latest.Length && length <= dest.Length
      invariant SameAs(org[..], latest[..]) == same && latest[..] == image
      invariant dest[..length] + Encode(same[p..], image[p..]) == encoding
    {
      assert latest[p..] == image[p..];
      EncodeStep(dest[..length], same, image, p, encoding);
      var code, x, k := Choose(org, latest, p);
      assert |TokenBytes(FirstToken(same[p..], image[p..]))| == 1 + 4 * k;
      length := PutToken(dest, length, code, latest, p, k);
      p := p + x;
    }
    assert same[p..] == [] && image[p..] == [];
    EncodeNothing();
  }

  /** Compresses a block that has no original. */
  method CompressFromZero(latest: array<Long>, dest: array<Byte>) returns (length: nat)
    requires Bound(latest.Length) <= dest.Length
    modifies dest
    ensures length <= Bound(latest.Length)
    ensures dest[..length] == Encode(Never(latest.Length), latest[..])
  {
    hide Encode, FirstToken, SameAs, Never, TokenBytes, Bound, BytesOf;
    ghost var same, image := Never(latest.Length), latest[..];
    ghost var encoding := Encode(same, image);
    EncodeBound(same, image);
    assert same[0..] == same && image[0..] == image;
    var p := 0;
    length := 0;
    while p < latest.Length
      invariant p <= latest.Length && length <= dest.Length
      invariant latest[..] == image
      invariant dest[..length] + Encode(same[p..], image[p..]) == encoding
    {
      assert latest[p..] == image[p..];
      EncodeStep(dest[..length], same, image, p, encoding);
      var code, x, k := ChooseFromZero(latest, p);
      assert |TokenBytes(FirstToken(same[p..], image[p..]))| == 1 + 4 * k;
      length := PutToken(dest, length, code, latest, p, k);
      p := p + x;
    }
    assert same[p..] == [] && image[p..] == [];
    EncodeNothing();
  }

  /** Copies k longs stored as bytes at data[p..] to dest[d..]. */
  method CopyBytes(data: array<Byte>, p: nat, k: nat, dest: array<Long>, d: nat)
    requires p + 4 * k <= data.Length && d + k <= dest.Length
    modifies dest
    ensures dest[..d] == old(dest[..d]) && dest[d + k..] == old(dest[d + k..])
    ensures dest[d..d + k] == LongsOf(data[p..p + 4 * k])
  {
    ghost var image := LongsOf(data[p..p + 4 * k]);
    var i := 0;
    while i < k
      invariant i <= k
      invariant dest[..d] == old(dest[..d]) && dest[d + i..] == old(dest[d + i..])
      invariant dest[d..d + i] == image[..i]
    {
      LongsOfAt(data[p..p + 4 * k], i);
      Within(data[..], p, p + 4 * k, 4 * i, 4 * i + 4);
      assert data[..][p..p + 4 * k] == data[p..p + 4 * k];
      ghost var done, rest := dest[..d + i], dest[d + i..];
      dest[d + i] := LongOf(data[p + 4 * i..p + 4 * i + 4]);
      assert dest[..d + i] == done && dest[d + i + 1..] == rest[1..];
      assert dest[..d] == done[..d] && dest[d..d + i] == done[d..];
      assert dest[d..d + i + 1] == dest[d..d + i] + [dest[d + i]];
      assert rest[1..] == old(dest[d + i + 1..]);
      i := i + 1;
    }
  }

  /** Stores v in the n longs from dest[d]. */
  method Fill(dest: array<Long>, d: nat, n: nat, v: Long)
    requires d + n <= dest.Length
    modifies dest
    ensures dest[..d] == old(dest[..d]) && dest[d + n..] == old(dest[d + n..])
    ensures dest[d..d + n] == seq(n, _ => v)
  {
    var i := 0;
    while i < n
      invariant i <= n
      invariant dest[..d] == old(dest[..d]) && dest[d + i..] == old(dest[d + i..])
      invariant forall j :: d <= j < d + i ==> dest[j] == v
    {
      ghost var rest := dest[d + i..];
      dest[d + i] := v;
      assert dest[d + i + 1..] == rest[1..] == old(dest[d + i + 1..]);
      i := i + 1;
    }
  }

  /** Decoding one more code byte: `done` grows by its effect on the longs behind it. */
  lemma DecodeStep(done: seq<Long>, tail: seq<Long>, code: seq<Byte>, p: nat)
    requires p < |code| && Fits(|tail|, code[p..])
    ensures var rest := code[p..];
      && Covered(rest) <= |tail| && p + Size(rest) <= |code|
      && Fits(|tail| - Covered(rest), code[p + Size(rest)..])
      && done + Decode(tail, rest)
         == done + Effect(tail[..Covered(rest)], rest) + Decode(tail[Covered(rest)..], code[p + Size(rest)..])
  {
    assert code[p..][Size(code[p..])..] == code[p + Size(code[p..])..];
  }

  lemma Within<T>(s: seq<T>, p: nat, length: nat, i: nat, j: nat)
    requires p <= length <= |s| && i <= j <= length - p
    ensures s[p + i..p + j] == s[p..length][i..j]
  {
    var a, b := s[p + i..p + j], s[p..length][i..j];
    assert forall k :: 0 <= k < j - i ==> a[k] == s[p + i + k] == b[k];
  }

  /** Carries out the code byte at data[p], covering x longs from dest[d]. */
  method ApplyToken(dest: array<Long>, d: nat, data: array<Byte>, p: nat, length: nat) returns (x: nat, q: nat)
    requires p < length <= data.Length && d <= dest.Length
    requires Covered(data[p..length]) <= dest.Length - d && p + Size(data[p..length]) <= length
    modifies dest
    ensures x == Covered(data[p..length]) && q == p + Size(data[p..length])
    ensures dest[..d] == old(dest[..d]) && dest[d + x..] == old(dest[d + x..])
    ensures dest[d..d + x] == Effect(old(dest[d..d + x]), data[p..length])
  {
    var c := data[p];
    x, q := c % 0x40 + 1, p + 1;
    if c / 0x40 == 1 {
    } else if c / 0x40 == 2 {
      Fill(dest, d, x, ALL_ONES);
    } else if c / 0x40 == 0 {
      Fill(dest, d, x, 0);
    } else {
      Within(data[..], p, length, 1, 1 + 4 * x);
      CopyBytes(data, q, x, dest, d);
      q := q + 4 * x;
    }
  }

  /** c is `start` with the code bytes in front of p carried out, which cover d longs. */
  ghost predicate Decoding(start: seq<Long>, code: seq<Byte>, d: nat, p: nat, c: seq<Long>) {
    && p <= |code| && d <= |start| == |c| && c[d..] == start[d..]
    && Fits(|start|, code) && Fits(|start| - d, code[p..])
    && Decode(start, code) == c[..d] + Decode(start[d..], code[p..])
  }

  lemma DecodingStart(start: seq<Long>, code: seq<Byte>)
    requires Fits(|start|, code)
    ensures Decoding(start, code, 0, 0, start)
  {
    hide Decode, Fits;
    assert code[0..] == code && start[0..] == start;
  }

  lemma DecodingStep(start: seq<Long>, code: seq<Byte>, d: nat, p: nat, c: seq<Long>, x: nat, q: nat, c': seq<Long>)
    requires Decoding(start, code, d, p, c) && p < |code| && x == Covered(code[p..]) && q == p + Size(code[p..])
    requires d + x <= |c| == |c'| && c'[..d] == c[..d] && c'[d + x..] == c[d + x..]
    requires c'[d..d + x] == Effect(c[d..d + x], code[p..])
    ensures Decoding(start, code, d + x, q, c')
  {
    hide Decode, Covered, Size, Effect;
    var tail := start[d..];
    DecodeStep(c[..d], tail, code, p);
    assert c[d..d + x] == c[d..][..x] == tail[..x];
    assert c'[..d + x] == c'[..d] + c'[d..d + x];
    assert tail[x..] == start[d + x..];
    assert c[d + x..] == c[d..][x..] == tail[x..];
  }

  lemma DecodingFits(start: seq<Long>, code: seq<Byte>, d: nat, p: nat, c: seq<Long>)
    requires Decoding(start, code, d, p, c) && p < |code|
    ensures Covered(code[p..]) <= |c| - d && p + Size(code[p..]) <= |code|
  {
    hide Decode;
    DecodeStep([], start[d..], code, p);
  }

  lemma DecodingEnd(start: seq<Long>, code: seq<Byte>, d: nat, c: seq<Long>)
    requires Decoding(start, code, d, |code|, c)
    ensures c == Decode(start, code)
  {
    assert code[|code|..] == [];
    assert c == c[..d] + c[d..];
  }

  /** Applies the difference data[..length] to `dest` in place. */
  method Uncompress(dest: array<Long>, data: array<Byte>, length: nat)
    requires length <= data.Length
    requires Fits(dest.Length, data[..length])
    modifies dest
    ensures dest[..] == Decode(old(dest[..]), data[..length])
  {
    hide Effect, Covered, Size, Decoding;
    ghost var code, start := data[..length], dest[..];
    var d: nat, p: nat := 0, 0;
    DecodingStart(start, code);
    while p < length
      invariant p <= length && d <= dest.Length && Decoding(start, code, d, p, dest[..])
    {
      ghost var c := dest[..];
      assert data[p..length] == code[p..];
      DecodingFits(start, code, d, p, c);
      var x, q := ApplyToken(dest, d, data, p, length);
      DecodingStep(start, code, d, p, c, x, q, dest[..]);
      p, d := q, d + x;
    }
    DecodingEnd(start, code, d, dest[..]);
  }
}
