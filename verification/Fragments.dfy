/** The list of fragments that smartfindandmarkspace of FS/bitmap.c collects, and how it leaves out
    the smallest ones. */
module Fragments {
  import opened Ranges
  import opened Space

  /** A struct Space. */
  datatype Fragment = Fragment(block: nat, blocks: nat)

  const LARGE := 0xFFFF

  lemma {:induction false} RangeSize(q: nat, n: nat)
    ensures |Range(q, n)| == n
  {
    hide Range;
    RangeHas(q, n);
    if n == 0 {
      assert Range(q, n) == {};
    } else {
      RangeSize(q, n - 1);
      RangeHas(q, n - 1);
      assert Range(q, n) == Range(q, n - 1) + {q + n - 1};
    }
  }

  predicate IsFree(free: seq<bool>, b: nat) { b < |free| && free[b] }

  ghost function FreeSet(free: seq<bool>): set<nat> {
    set b: nat | b < |free| && IsFree(free, b)
  }

  lemma InFreeSet(free: seq<bool>)
    ensures forall b: nat :: b in FreeSet(free) <==> IsFree(free, b)
  {
  }

  lemma FreeRange(free: seq<bool>, q: nat, n: nat)
    ensures AllFree(free, q, n) ==> Range(q, n) <= FreeSet(free)
    ensures AllUsed(free, q, q + n) ==> Range(q, n) !! FreeSet(free)
  {
    RangeHas(q, n);
    InFreeSet(free);
    if AllFree(free, q, n) {
      forall b | b in Range(q, n) ensures b in FreeSet(free) { assert free[b]; }
    }
  }

  // ----- Lists of fragments

  ghost function Total(list: seq<Fragment>): nat {
    if list == [] then 0 else Total(list[..|list| - 1]) + list[|list| - 1].blocks
  }

  ghost function BlocksOf(list: seq<Fragment>): set<nat> {
    if list == [] then {} else BlocksOf(list[..|list| - 1]) + Range(list[|list| - 1].block, list[|list| - 1].blocks)
  }

  /** Every fragment is free, and none has a block of another. */
  ghost predicate Disjoint(list: seq<Fragment>) {
    |BlocksOf(list)| == Total(list)
  }

  lemma Snoc(list: seq<Fragment>, f: Fragment)
    ensures Total(list + [f]) == Total(list) + f.blocks
    ensures BlocksOf(list + [f]) == BlocksOf(list) + Range(f.block, f.blocks)
  {
    assert (list + [f])[..|list|] == list;
  }

  lemma SnocDisjoint(list: seq<Fragment>, f: Fragment)
    requires Disjoint(list) && BlocksOf(list) !! Range(f.block, f.blocks)
    ensures Disjoint(list + [f])
  {
    Snoc(list, f);
    RangeSize(f.block, f.blocks);
  }

  lemma {:induction false} AtMost(list: seq<Fragment>)
    ensures |BlocksOf(list)| <= Total(list)
  {
    if list != [] {
      var f := list[|list| - 1];
      AtMost(list[..|list| - 1]);
      RangeSize(f.block, f.blocks);
      UnionSize(BlocksOf(list[..|list| - 1]), Range(f.block, f.blocks));
    }
  }

  lemma UnionSize(a: set<nat>, b: set<nat>)
    ensures |a + b| <= |a| + |b|
    ensures |a + b| == |a| + |b| ==> a !! b
  {
    assert a + b == a + (b - a);
    assert b == (b - a) + (b * a);
    if a * b != {} {
      assert |b * a| > 0;
    }
  }

  /** Disjoint fragments have no block in common, two by two. */
  lemma {:induction false} DisjointParts(list: seq<Fragment>, i: nat, j: nat)
    requires Disjoint(list) && i < j < |list|
    ensures Range(list[i].block, list[i].blocks) !! Range(list[j].block, list[j].blocks)
  {
    var before, f := list[..|list| - 1], list[|list| - 1];
    assert list == before + [f];
    Snoc(before, f);
    AtMost(before);
    RangeSize(f.block, f.blocks);
    UnionSize(BlocksOf(before), Range(f.block, f.blocks));
    if j < |list| - 1 {
      DisjointParts(before, i, j);
    } else {
      PartOf(before, i);
    }
  }

  lemma {:induction false} PartOf(list: seq<Fragment>, i: nat)
    requires i < |list|
    ensures Range(list[i].block, list[i].blocks) <= BlocksOf(list)
  {
    if i < |list| - 1 { PartOf(list[..|list| - 1], i); }
  }

  // ----- Leaving out the smallest fragments

  function Sizes(list: seq<Fragment>): seq<nat> {
    seq(|list|, i requires 0 <= i < |list| => list[i].blocks)
  }

  ghost function Sum(sizes: seq<nat>): nat {
    if sizes == [] then 0 else Sum(sizes[..|sizes| - 1]) + sizes[|sizes| - 1]
  }

  /** The blocks in fragments that are larger than 0xFFFF. */
  function Huge(sizes: seq<nat>): nat {
    if sizes == [] then 0 else Huge(sizes[..|sizes| - 1]) + if sizes[|sizes| - 1] > LARGE then sizes[|sizes| - 1] else 0
  }

  lemma {:induction false} SumCleared(sizes: seq<nat>, n: nat)
    requires n < |sizes|
    ensures Sum(sizes[n := 0]) == Sum(sizes) - sizes[n] && sizes[n] <= Sum(sizes)
    ensures sizes[n] <= LARGE ==> Huge(sizes[n := 0]) == Huge(sizes)
  {
    var k := |sizes| - 1;
    if n < k {
      SumCleared(sizes[..k], n);
      assert sizes[n := 0][..k] == sizes[..k][n := 0];
    } else {
      assert sizes[n := 0][..k] == sizes[..k];
    }
  }

  lemma {:induction false} HugeAtMost(sizes: seq<nat>)
    ensures Huge(sizes) <= Sum(sizes)
    ensures (forall n :: 0 <= n < |sizes| ==> sizes[n] == 0 || sizes[n] > LARGE) ==> Huge(sizes) == Sum(sizes)
  {
    if sizes != [] {
      var before := sizes[..|sizes| - 1];
      HugeAtMost(before);
      if forall n :: 0 <= n < |sizes| ==> sizes[n] == 0 || sizes[n] > LARGE {
        forall n | 0 <= n < |before| ensures before[n] == 0 || before[n] > LARGE { assert before[n] == sizes[n]; }
      }
    }
  }

  lemma {:induction false} SumZero(sizes: seq<nat>, low: nat)
    requires forall n :: 0 <= n < |sizes| ==> sizes[n] == 0 || sizes[n] >= low
    ensures Sum(sizes) == 0 || Sum(sizes) >= low
  {
    if sizes != [] {
      var before := sizes[..|sizes| - 1];
      forall n | 0 <= n < |before| ensures before[n] == 0 || before[n] >= low { assert before[n] == sizes[n]; }
      SumZero(before, low);
      assert sizes[|sizes| - 1] == 0 || sizes[|sizes| - 1] >= low;
    }
  }

  /** ULONG subtraction. */
  function Minus(a: nat, b: nat): (r: nat)
    requires b <= WRAP
    ensures a >= b ==> r == a - b
  {
    if a >= b then a - b else a - b + WRAP
  }

  const WRAP := 0x1_0000_0000

  /** What the loops of the elimination work on: the sizes, their sum, and the size to look for. */
  datatype Sieve = Sieve(sizes: seq<nat>, found: nat, smallest: nat) {
    /** The outer loop goes on. */
    predicate GoesOn(needed: nat) { found >= needed + smallest }
  }

  /** One pass of the inner loop from fragment n on; `smaller` is the smallest other size seen. */
  function Pass(s: Sieve, needed: nat, n: nat, smaller: nat): (r: Sieve)
    requires n <= |s.sizes| && s.smallest <= LARGE
    ensures |r.sizes| == |s.sizes|
    decreases |s.sizes| - n
  {
    if n == |s.sizes| then s.(smallest := smaller)
    else if s.sizes[n] == 0 then Pass(s, needed, n + 1, smaller)
    else if s.sizes[n] == s.smallest then
      var s' := s.(sizes := s.sizes[n := 0], found := Minus(s.found, s.smallest));
      if Minus(s'.found, s'.smallest) < needed then s'.(smallest := smaller) else Pass(s', needed, n + 1, smaller)
    else Pass(s, needed, n + 1, if s.sizes[n] < smaller then s.sizes[n] else smaller)
  }

  /** A pass over all fragments. */
  function FullPass(s: Sieve, needed: nat): (r: Sieve)
    ensures |r.sizes| == |s.sizes|
  {
    if s.smallest <= LARGE then Pass(s, needed, 0, LARGE) else s
  }

  /** At most k passes. */
  function Passes(s: Sieve, needed: nat, k: nat): (r: Sieve)
    ensures |r.sizes| == |s.sizes|
  {
    if k == 0 then s
    else
      var t := Passes(s, needed, k - 1);
      if t.GoesOn(needed) then FullPass(t, needed) else t
  }

  /** Some fragments were left out, and no others changed. */
  ghost predicate LeftOut(sizes: seq<nat>, sizes': seq<nat>) {
    |sizes'| == |sizes| && forall n :: 0 <= n < |sizes| ==> sizes'[n] == sizes[n] || sizes'[n] == 0
  }

  /** Only fragments of at most n blocks were left out. */
  ghost predicate OnlySmall(sizes: seq<nat>, sizes': seq<nat>, n: nat) {
    |sizes'| == |sizes| && forall k :: 0 <= k < |sizes| ==> sizes'[k] == sizes[k] || sizes[k] <= n
  }

  ghost predicate NoneBelow(sizes: seq<nat>, low: nat) {
    forall n :: 0 <= n < |sizes| ==> sizes[n] == 0 || sizes[n] >= low
  }

  /** Between passes: the sum is right, and either no fragment is smaller than the size to look for
      or too little is left over to leave one out. */
  ghost predicate Sieved(s: Sieve, needed: nat, low: nat) {
    && s.found == Sum(s.sizes) && 0 < low <= s.smallest <= LARGE && NoneBelow(s.sizes, low)
    && (low == s.smallest || s.found < needed + low)
  }

  /** In the middle of a pass. */
  ghost predicate InPass(s: Sieve, needed: nat, n: nat, smaller: nat) {
    && n <= |s.sizes| && s.found == Sum(s.sizes) && 0 < s.smallest <= smaller <= LARGE && needed > 0
    && s.found >= needed + s.smallest && (smaller == s.smallest ==> smaller == LARGE)
    && NoneBelow(s.sizes, s.smallest)
    && forall k :: 0 <= k < n && s.sizes[k] != 0 ==> s.sizes[k] >= smaller && s.sizes[k] != s.smallest
  }

  /** Leaving out fragment n never takes more than there is: neither subtraction underflows. */
  lemma TakeOut(s: Sieve, needed: nat, n: nat, smaller: nat)
    requires InPass(s, needed, n, smaller) && n < |s.sizes| && s.sizes[n] == s.smallest
    ensures s.found >= s.smallest && s.found - s.smallest >= needed && s.found - s.smallest >= s.smallest
    ensures var s' := s.(sizes := s.sizes[n := 0], found := s.found - s.smallest);
      && s'.found == Sum(s'.sizes) && NoneBelow(s'.sizes, s.smallest) && Huge(s'.sizes) == Huge(s.sizes)
      && (s'.found >= needed + s.smallest ==> InPass(s', needed, n + 1, smaller))
  {
    SumCleared(s.sizes, n);
    SumZero(s.sizes[n := 0], s.smallest);
  }

  /** What a pass comes to. */
  ghost predicate PassDone(s: Sieve, needed: nat, r: Sieve) {
    && LeftOut(s.sizes, r.sizes) && OnlySmall(s.sizes, r.sizes, s.smallest)
    && Huge(r.sizes) == Huge(s.sizes) && r.found == Sum(r.sizes) && r.found >= needed
    && s.smallest <= r.smallest <= LARGE
    && (|| (NoneBelow(r.sizes, s.smallest) && r.found < needed + s.smallest)
        || (NoneBelow(r.sizes, r.smallest) && r.smallest > s.smallest)
        || (NoneBelow(r.sizes, LARGE + 1) && r.smallest == LARGE))
  }

  lemma {:induction false} PassResult(s: Sieve, needed: nat, n: nat, smaller: nat)
    requires InPass(s, needed, n, smaller)
    ensures PassDone(s, needed, Pass(s, needed, n, smaller))
    decreases |s.sizes| - n
  {
    hide Sum, Huge, Pass;
    PassUnfold(s, needed, n, smaller);
    if n == |s.sizes| {
    } else if s.sizes[n] == s.smallest {
      TakeOut(s, needed, n, smaller);
      var s' := s.(sizes := s.sizes[n := 0], found := s.found - s.smallest);
      if s'.found >= needed + s.smallest {
        PassResult(s', needed, n + 1, smaller);
      }
    } else {
      PassResult(s, needed, n + 1, if s.sizes[n] != 0 && s.sizes[n] < smaller then s.sizes[n] else smaller);
    }
  }

  lemma PassUnfold(s: Sieve, needed: nat, n: nat, smaller: nat)
    requires n <= |s.sizes| && s.smallest <= LARGE
    ensures n == |s.sizes| ==> Pass(s, needed, n, smaller) == s.(smallest := smaller)
    ensures n < |s.sizes| && s.sizes[n] == s.smallest && s.sizes[n] != 0 ==>
      (var s' := s.(sizes := s.sizes[n := 0], found := Minus(s.found, s.smallest));
       Pass(s, needed, n, smaller)
         == if Minus(s'.found, s'.smallest) < needed then s'.(smallest := smaller)
           else Pass(s', needed, n + 1, smaller))
    ensures n < |s.sizes| && (s.sizes[n] != s.smallest || s.sizes[n] == 0) ==>
      Pass(s, needed, n, smaller)
        == Pass(s, needed, n + 1, if s.sizes[n] != 0 && s.sizes[n] < smaller then s.sizes[n] else smaller)
  {
  }

  /** How far a sieve is from its end. */
  ghost function ToGo(s: Sieve, needed: nat): nat {
    if s.GoesOn(needed) && s.smallest <= LARGE then LARGE + 1 - s.smallest else 0
  }

  lemma PassSieved(s: Sieve, needed: nat, low: nat) returns (low': nat)
    requires Sieved(s, needed, low) && s.GoesOn(needed) && needed > 0
    ensures low == s.smallest && PassDone(s, needed, FullPass(s, needed))
    ensures low' >= low && Sieved(FullPass(s, needed), needed, low')
    ensures OnlySmall(s.sizes, FullPass(s, needed).sizes, low)
    ensures Huge(s.sizes) < needed + LARGE ==> ToGo(FullPass(s, needed), needed) < ToGo(s, needed)
    ensures Huge(s.sizes) >= needed + LARGE ==> FullPass(s, needed).GoesOn(needed)
  {
    hide Sum, Huge, Pass;
    PassResult(s, needed, 0, LARGE);
    var r := FullPass(s, needed);
    HugeAtMost(r.sizes);
    low' := if NoneBelow(r.sizes, r.smallest) then r.smallest else low;
  }

  /** The passes come to an end, with these sizes left. */
  ghost predicate Ends(s: Sieve, needed: nat, left: seq<nat>) {
    exists k: nat :: EndsAfter(s, needed, k, left)
  }

  ghost predicate Terminates(s: Sieve, needed: nat) {
    exists left :: Ends(s, needed, left)
  }

  ghost predicate EndsAfter(s: Sieve, needed: nat, k: nat, left: seq<nat>) {
    Passes(s, needed, k).sizes == left && !Passes(s, needed, k).GoesOn(needed)
  }

  /** The elimination ends if and only if the fragments larger than 0xFFFF have fewer than 0xFFFF
      blocks more than are needed. */
  lemma EliminationEnds(s: Sieve, needed: nat)
    requires needed > 0 && s.found == Sum(s.sizes) && s.smallest == 1
    ensures Terminates(s, needed) <==> Huge(s.sizes) < needed + 0xFFFF
  {
    hide Sum, Huge, Passes;
    if Huge(s.sizes) < needed + LARGE {
      var k := Ending(s, needed, 1);
      var left := Passes(s, needed, k).sizes;
      assert EndsAfter(s, needed, k, left);
      assert Ends(s, needed, left);
      assert Terminates(s, needed);
    } else {
      forall left, k: nat ensures !EndsAfter(s, needed, k, left) {
        var low := StaysStuck(s, needed, k);
      }
      assert !Terminates(s, needed);
    }
  }

  lemma {:induction false} Ending(s: Sieve, needed: nat, low: nat) returns (k: nat)
    requires Sieved(s, needed, low) && needed > 0 && Huge(s.sizes) < needed + LARGE
    ensures !Passes(s, needed, k).GoesOn(needed)
    decreases ToGo(s, needed)
  {
    hide Sum, Huge, FullPass;
    if !s.GoesOn(needed) {
      k := 0;
    } else {
      var low' := PassSieved(s, needed, low);
      k := Ending(FullPass(s, needed), needed, low');
      PassesFirst(s, needed, k);
      k := k + 1;
    }
  }

  lemma {:induction false} PassesFirst(s: Sieve, needed: nat, k: nat)
    requires s.GoesOn(needed)
    ensures Passes(s, needed, k + 1) == Passes(FullPass(s, needed), needed, k)
  {
    hide FullPass;
    if k > 0 {
      PassesFirst(s, needed, k - 1);
    } else {
      assert Passes(s, needed, 0) == s;
    }
  }

  lemma {:induction false} StaysStuck(s: Sieve, needed: nat, k: nat) returns (low: nat)
    requires Sieved(s, needed, 1) && needed > 0 && Huge(s.sizes) >= needed + LARGE
    ensures Sieved(Passes(s, needed, k), needed, low) && Huge(Passes(s, needed, k).sizes) == Huge(s.sizes)
    ensures Passes(s, needed, k).GoesOn(needed)
  {
    hide Sum, Huge, FullPass;
    HugeAtMost(s.sizes);
    if k == 0 {
      low := 1;
    } else {
      var before := StaysStuck(s, needed, k - 1);
      low := PassSieved(Passes(s, needed, k - 1), needed, before);
    }
  }

  /** Two fragments for which it never ends. */
  lemma NeverEnds()
    ensures !Terminates(Sieve([70000, 79000], 149000, 1), 80000)
  {
    hide Passes, Terminates;
    var sizes := [70000, 79000];
    assert sizes[..1] == [70000] && sizes[..1][..0] == [];
    assert Sum(sizes[..1]) == 70000 && Huge(sizes[..1]) == 70000;
    assert Sum(sizes) == 149000 && Huge(sizes) == 149000;
    EliminationEnds(Sieve(sizes, 149000, 1), 80000);
  }

  /** What is left when the elimination has ended: enough, but no longer without any one of the
      fragments left, and none of those left out is larger than one of these. */
  ghost predicate Thinned(sizes: seq<nat>, needed: nat, sizes': seq<nat>) {
    && LeftOut(sizes, sizes')
    && (forall m, n ::
        0 <= m < |sizes'| && 0 <= n < |sizes'| && sizes'[m] != sizes[m] && sizes'[n] != 0 ==> sizes[m] <= sizes[n])
    && (Sum(sizes) <= needed ==> sizes' == sizes)
    && (Sum(sizes) >= needed ==> Sum(sizes') >= needed)
    && forall n :: 0 <= n < |sizes'| && sizes'[n] != 0 && Sum(sizes) > needed ==> Sum(sizes') < needed + sizes'[n]
  }

  /** Leaves out fragments, the smallest first, as long as enough blocks are left. */
  method Eliminate(sizes: seq<nat>, blocksfound: nat, needed: nat) returns (left: seq<nat>)
    requires blocksfound == Sum(sizes) && needed > 0 && Huge(sizes) < needed + LARGE
    ensures Thinned(sizes, needed, left)
    ensures Ends(Sieve(sizes, blocksfound, 1), needed, left)
  {
    hide Sum, Huge, Pass, FullPass;
    ghost var s0 := Sieve(sizes, blocksfound, 1);
    var s := Sieve(sizes, blocksfound, 1);
    ghost var low, passes: nat := 1, 0;
    while s.found >= needed + s.smallest
      invariant Sieved(s, needed, low) && LeftOut(sizes, s.sizes) && Huge(s.sizes) == Huge(sizes)
      invariant s == Passes(s0, needed, passes)
      invariant passes == 0 || (s.found >= needed && Sum(sizes) > needed)
      invariant OnlySmall(sizes, s.sizes, low)
      decreases ToGo(s, needed)
    {
      ghost var before := s;
      low := PassSieved(s, needed, low);
      s := InnerPass(s, needed);
      passes := passes + 1;
    }
    left := s.sizes;
    assert EndsAfter(s0, needed, passes, left);
  }

  /** One pass: every fragment of the smallest size is left out, until too few blocks would be
      left. */
  method InnerPass(s0: Sieve, needed: nat) returns (s: Sieve)
    requires s0.smallest <= LARGE
    ensures s == FullPass(s0, needed)
  {
    hide Pass;
    s := s0;
    var newsmallest: nat, n: nat := LARGE, 0;
    while n < |s.sizes|
      invariant n <= |s.sizes| && s.smallest == s0.smallest
      invariant Pass(s, needed, n, newsmallest) == Pass(s0, needed, 0, LARGE)
      decreases |s.sizes| - n
    {
      PassUnfold(s, needed, n, newsmallest);
      var blocks := s.sizes[n];
      if blocks != 0 {
        if blocks == s.smallest {
          s := s.(found := Minus(s.found, s.smallest), sizes := s.sizes[n := 0]);
          if Minus(s.found, s.smallest) < needed {
            return s.(smallest := newsmallest);
          }
        } else if blocks < newsmallest {
          newsmallest := blocks;
        }
      }
      n := n + 1;
    }
    PassUnfold(s, needed, n, newsmallest);
    s := s.(smallest := newsmallest);
  }

  // ----- What is marked of a list

  /** The list with the sizes that are left. */
  function Resized(list: seq<Fragment>, sizes: seq<nat>): (r: seq<Fragment>)
    requires |sizes| == |list|
    ensures |r| == |list| && forall i :: 0 <= i < |r| ==> r[i] == Fragment(list[i].block, sizes[i])
  {
    seq(|list|, i requires 0 <= i < |list| => Fragment(list[i].block, sizes[i]))
  }

  /** The fragments cut to `needed` blocks in all. */
  ghost function Cut(list: seq<Fragment>, needed: nat): (r: seq<Fragment>)
    ensures |r| == |list|
  {
    if list == [] then []
    else
      var before, f := Cut(list[..|list| - 1], needed), list[|list| - 1];
      var room := if Total(before) <= needed then needed - Total(before) else 0;
      before + [Fragment(f.block, if f.blocks < room then f.blocks else room)]
  }

  lemma CutStep(list: seq<Fragment>, needed: nat, n: nat)
    requires n < |list|
    ensures var room := if Total(Cut(list[..n], needed)) <= needed then needed - Total(Cut(list[..n], needed)) else 0;
      Cut(list[..n + 1], needed)
        == Cut(list[..n], needed) + [Fragment(list[n].block, if list[n].blocks < room then list[n].blocks else room)]
  {
    assert list[..n + 1][..n] == list[..n];
  }

  lemma {:induction false} CutTotal(list: seq<Fragment>, needed: nat)
    ensures Total(Cut(list, needed)) == if Total(list) < needed then Total(list) else needed
  {
    if list != [] {
      var before := list[..|list| - 1];
      CutTotal(before, needed);
      Snoc(Cut(before, needed), Cut(list, needed)[|list| - 1]);
    }
  }

  /** A part of a fragment goes where the fragment went. */
  lemma SnocPart(before: seq<Fragment>, f: Fragment, part: seq<Fragment>, c: Fragment)
    requires BlocksOf(part) <= BlocksOf(before) && (Disjoint(before) ==> Disjoint(part))
    requires c.block == f.block && c.blocks <= f.blocks
    ensures BlocksOf(part + [c]) <= BlocksOf(before + [f])
    ensures Disjoint(before + [f]) ==> Disjoint(before) && Disjoint(part + [c])
  {
    hide BlocksOf, Total, Range, Disjoint;
    Snoc(before, f);
    Snoc(part, c);
    RangeHas(f.block, f.blocks);
    RangeHas(c.block, c.blocks);
    if Disjoint(before + [f]) {
      DisjointBefore(before, f);
      SnocDisjoint(part, c);
    }
  }

  lemma DisjointBefore(before: seq<Fragment>, f: Fragment)
    requires Disjoint(before + [f])
    ensures Disjoint(before) && BlocksOf(before) !! Range(f.block, f.blocks)
  {
    hide BlocksOf, Total, Range;
    Snoc(before, f);
    AtMost(before);
    RangeSize(f.block, f.blocks);
    UnionSize(BlocksOf(before), Range(f.block, f.blocks));
  }

  /** What is cut stays inside of the list. */
  ghost predicate Within(part: seq<Fragment>, list: seq<Fragment>) {
    BlocksOf(part) <= BlocksOf(list) && (Disjoint(list) ==> Disjoint(part))
  }

  lemma {:induction false} CutInside(list: seq<Fragment>, needed: nat)
    ensures Within(Cut(list, needed), list)
  {
    if list != [] {
      var n := |list| - 1;
      CutInside(list[..n], needed);
      CutStep(list, needed, n);
      hide *;
      assert list[..n + 1] == list == list[..n] + [list[n]];
      WithinMore(list[..n], list[n], Cut(list[..n], needed), Cut(list, needed));
    } else {
      assert Cut(list, needed) == list;
    }
  }

  lemma WithinMore(before: seq<Fragment>, f: Fragment, part: seq<Fragment>, more: seq<Fragment>)
    requires Within(part, before) && |more| == |part| + 1 && more[..|part|] == part
    requires more[|part|].block == f.block && more[|part|].blocks <= f.blocks
    ensures Within(more, before + [f])
  {
    hide BlocksOf, Total, Disjoint;
    assert more == part + [more[|part|]];
    SnocPart(before, f, part, more[|part|]);
  }

  /** Leaving fragments out leaves the others apart. */
  lemma {:induction false} ResizedInside(list: seq<Fragment>, sizes: seq<nat>)
    requires LeftOut(Sizes(list), sizes)
    ensures BlocksOf(Resized(list, sizes)) <= BlocksOf(list) && Total(Resized(list, sizes)) == Sum(sizes)
    ensures Disjoint(list) ==> Disjoint(Resized(list, sizes))
  {
    var n := |list| - 1;
    if list != [] {
      var before, f, c := list[..n], list[n], Resized(list, sizes)[n];
      forall i | 0 <= i < n ensures sizes[..n][i] == Sizes(before)[i] || sizes[..n][i] == 0 {
        assert sizes[i] == Sizes(list)[i] || sizes[i] == 0;
      }
      hide BlocksOf, Total, Disjoint;
      ResizedInside(before, sizes[..n]);
      assert sizes[n] == Sizes(list)[n] || sizes[n] == 0;
      assert Resized(list, sizes) == Resized(before, sizes[..n]) + [c] && list == before + [f];
      Snoc(Resized(before, sizes[..n]), c);
      SnocPart(before, f, Resized(before, sizes[..n]), c);
    } else {
      assert Resized(list, sizes) == list;
    }
  }

  lemma {:induction false} SumIsTotal(list: seq<Fragment>)
    ensures Sum(Sizes(list)) == Total(list)
  {
    if list != [] {
      SumIsTotal(list[..|list| - 1]);
      assert Sizes(list)[..|list| - 1] == Sizes(list[..|list| - 1]);
    }
  }

  /** Without fragments larger than 0xFFFF, or with few blocks in all, the elimination ends. */
  lemma {:induction false} NoHuge(sizes: seq<nat>)
    requires forall n :: 0 <= n < |sizes| ==> sizes[n] <= LARGE
    ensures Huge(sizes) == 0
  {
    if sizes != [] {
      var before := sizes[..|sizes| - 1];
      forall n | 0 <= n < |before| ensures before[n] <= LARGE { assert before[n] == sizes[n]; }
      NoHuge(before);
    }
  }

  /** After the elimination every fragment left gets at least one of its blocks marked. */
  lemma CutUsesAll(list: seq<Fragment>, sizes: seq<nat>, needed: nat, n: nat)
    requires Thinned(Sizes(list), needed, sizes) && n < |list| && sizes[n] > 0 && needed > 0
    ensures Cut(Resized(list, sizes), needed)[n].blocks > 0
  {
    var r := Resized(list, sizes);
    ResizedInside(list, sizes);
    CutStep(r, needed, n);
    CutTotal(r[..n], needed);
    TotalWithout(r, n);
    SumIsTotal(list);
    CutPrefix(r, needed, n + 1);
    assert Cut(r[..n + 1], needed)[n] == Cut(r, needed)[n];
  }

  /** Every fragment is taken from its start on, and whole unless none behind it is taken. */
  ghost predicate CutBack(list: seq<Fragment>, marked: seq<Fragment>) {
    && |marked| == |list|
    && (forall n :: 0 <= n < |list| ==> marked[n].block == list[n].block && marked[n].blocks <= list[n].blocks)
    && forall m, n :: 0 <= m < n < |list| && marked[n].blocks > 0 ==> marked[m].blocks == list[m].blocks
  }

  lemma CutBackMore(list: seq<Fragment>, f: Fragment, marked: seq<Fragment>, c: Fragment)
    requires CutBack(list, marked) && c.block == f.block && c.blocks <= f.blocks && (c.blocks > 0 ==> marked == list)
    ensures CutBack(list + [f], marked + [c])
  {
  }

  lemma {:induction false} CutIsBack(list: seq<Fragment>, needed: nat)
    ensures CutBack(list, Cut(list, needed))
  {
    hide CutBack, Total, Cut;
    if list == [] {
      CutNothing(needed);
    } else {
      var before := list[..|list| - 1];
      CutIsBack(before, needed);
      CutStep(list, needed, |list| - 1);
      CutTotal(before, needed);
      if Total(before) < needed {
        CutNot(before, needed);
      }
      assert list[..|list| - 1 + 1] == list == before + [list[|list| - 1]];
      CutBackMore(before, list[|list| - 1], Cut(before, needed), Cut(list, needed)[|list| - 1]);
    }
  }

  lemma CutNothing(needed: nat)
    ensures CutBack([], Cut([], needed))
  {
  }

  /** A list with too few blocks is not cut. */
  lemma {:induction false} CutNot(list: seq<Fragment>, needed: nat)
    requires Total(list) <= needed
    ensures Cut(list, needed) == list
  {
    if list != [] {
      CutNot(list[..|list| - 1], needed);
    }
  }

  lemma {:induction false} CutPrefix(list: seq<Fragment>, needed: nat, n: nat)
    requires n <= |list|
    ensures Cut(list[..n], needed) == Cut(list, needed)[..n]
    decreases |list|
  {
    if n == |list| {
      assert list[..n] == list;
    } else {
      CutPrefix(list[..|list| - 1], needed, n);
      assert list[..|list| - 1][..n] == list[..n];
    }
  }

  lemma {:induction false} TotalWithout(list: seq<Fragment>, n: nat)
    requires n < |list|
    ensures Total(list[..n]) + list[n].blocks <= Total(list)
    decreases |list|
  {
    if n < |list| - 1 {
      TotalWithout(list[..|list| - 1], n);
      assert list[..|list| - 1][..n] == list[..n];
    }
  }
}
