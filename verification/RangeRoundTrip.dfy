/** Reading the blocks back as ranges, and the round trip range - blocks - ranges - merge. */
module RangeRoundTrip {
  import opened Bits
  import opened RangeToCidr
  import opened CidrProperties
  import opened CidrBounds
  import opened CidrCount
  import opened RangeMerge

  function ToRange(c: Cidr, m: nat): (r: Range)
    requires c.prefix <= m
  {
    Range(c.addr, Pow2(m - c.prefix) - 1 + c.addr)
  }

  /** cidr2range: one range per record, up to the shorter of the two arrays. */
  method CidrToRange(maxPrefix: nat, cidr: array<Cidr>, cidrCnt: nat, range: array<Range>, rangeCnt: nat)
    requires cidrCnt <= cidr.Length && rangeCnt <= range.Length
    requires forall k :: 0 <= k < cidrCnt ==> cidr[k].prefix <= maxPrefix
    modifies range
    ensures forall k :: 0 <= k < Min(cidrCnt, rangeCnt) ==> range[k] == ToRange(cidr[k], maxPrefix)
    ensures forall k :: 0 <= k < Min(cidrCnt, rangeCnt) ==>
      range[k].start == cidr[k].addr && range[k].end + 1 == cidr[k].addr + Pow2(maxPrefix - cidr[k].prefix)
    ensures forall k :: Min(cidrCnt, rangeCnt) <= k < range.Length ==> range[k] == old(range[k])
  {
    var i := 0;
    while i < cidrCnt && i < rangeCnt
      invariant i <= cidrCnt && i <= rangeCnt
      invariant forall k :: 0 <= k < i ==> range[k] == ToRange(cidr[k], maxPrefix)
      invariant forall k :: i <= k < range.Length ==> range[k] == old(range[k])
    {
      range[i] := Range(cidr[i].addr, Pow2(maxPrefix - cidr[i].prefix) - 1 + cidr[i].addr);
      i := i + 1;
    }
  }

  // ---- the ranges read back from the blocks of [start, end] ---------------------------------

  ghost predicate Storable(bs: seq<Block>, m: nat) {
    forall k :: 0 <= k < |bs| ==> bs[k].exp <= m && bs[k].exp < 32
  }

  function ReadBack(bs: seq<Block>, m: nat): (rs: seq<Range>)
    requires Storable(bs, m)
  {
    seq(|bs|, k requires 0 <= k < |bs| => ToRange(Stored(bs[k], m), m))
  }

  lemma BlocksAreStorable(start: nat, end: nat, m: nat)
    requires start <= end < UINT32_LIMIT - 1
    ensures Storable(Greedy(start, end + 1, m), m)
  {
    var g := Greedy(start, end + 1, m);
    forall k | 0 <= k < |g| ensures g[k].exp <= m && g[k].exp < 32 { EmittedBlock(g[k], start, end, m); }
  }

  lemma {:induction false} ChainIsOrdered(bs: seq<Block>, lo: nat, hi: nat, j: nat, k: nat)
    requires Chain(bs, lo, hi) && k < |bs|
    ensures lo <= bs[k].start
    ensures j < k ==> bs[j].Stop() <= bs[k].start
    decreases |bs|
  {
    if k > 0 {
      ChainIsOrdered(bs[1..], bs[0].Stop(), hi, if j == 0 then k - 1 else j - 1, k - 1);
    }
  }

  /** Blocks stored at their own address are read back as the range itself. */
  lemma ExactCover(start: nat, end: nat, m: nat, x: nat)
    requires start <= end < UINT32_LIMIT - 1 && AddressesExact(start, end, m)
    requires Storable(Greedy(start, end + 1, m), m)
    ensures Covered(ReadBack(Greedy(start, end + 1, m), m), x) <==> start <= x <= end
  {
    hide Greedy, Stored, Pow2;
    var g := Greedy(start, end + 1, m);
    var rs := ReadBack(g, m);
    SplitTiles(start, end + 1, m);
    ChainHoldsEachOnce(g, start, end + 1, x);
    assert forall k :: 0 <= k < |g| ==> g[k] in g;
    forall k | 0 <= k < |g| ensures In(x, rs[k]) <==> Holds(g[k], x) { ExactBlockReads(g[k], m, x); }
  }

  lemma ExactBlockReads(b: Block, m: nat, x: nat)
    requires b.exp <= m && b.exp < 32 && Stored(b, m).addr == b.start
    ensures In(x, ToRange(Stored(b, m), m)) <==> Holds(b, x)
  {
  }

  /** What is read back from one emitted block. */
  lemma EmittedRange(g: seq<Block>, start: nat, end: nat, m: nat, k: nat)
    requires start <= end < UINT32_LIMIT - 1 && g == Greedy(start, end + 1, m) && k < |g|
    ensures g[k].exp <= m && g[k].exp < 32 && start <= g[k].start && g[k].Stop() <= end + 1
    ensures ReadFrom(ToRange(Stored(g[k], m), m), g[k])
  {
    SplitTiles(start, end + 1, m);
    assert Within(g[k], start, end + 1, m);
    ExponentBelow32(g[k].start, end + 1, g[k].exp);
  }

  /** A range of the block's size that starts at or below the block. */
  ghost predicate ReadFrom(r: Range, b: Block) {
    r.start <= b.start && r.end == r.start + Pow2(b.exp) - 1
  }

  /** A block stored below its start leaves its last value uncovered, if all later blocks are exact. */
  lemma LastInexactLeavesHole(g: seq<Block>, lo: nat, hi: nat, rs: seq<Range>, k: nat)
    requires Chain(g, lo, hi) && k < |g| == |rs|
    requires forall i :: 0 <= i < |g| ==> ReadFrom(rs[i], g[i])
    requires rs[k].start != g[k].start && forall i :: k < i < |g| ==> rs[i].start == g[i].start
    ensures !Covered(rs, g[k].Stop() - 1)
  {
    var x := g[k].Stop() - 1;
    forall i | 0 <= i < |g| ensures !In(x, rs[i]) { MissesLastValue(g, lo, hi, k, i, rs[i]); }
  }

  lemma MissesLastValue(g: seq<Block>, lo: nat, hi: nat, k: nat, i: nat, r: Range)
    requires Chain(g, lo, hi) && k < |g| && i < |g|
    requires ReadFrom(r, g[i])
    requires k < i ==> r.start == g[i].start
    requires k == i ==> r.start != g[i].start
    ensures !In(g[k].Stop() - 1, r)
  {
    if i < k { ChainIsOrdered(g, lo, hi, i, k); }
    if k < i { ChainIsOrdered(g, lo, hi, k, i); }
  }

  lemma {:induction false} LastInexact(g: seq<Block>, rs: seq<Range>, n: nat) returns (k: nat)
    requires n <= |g| == |rs|
    requires exists i :: 0 <= i < n && rs[i].start != g[i].start
    ensures k < n && rs[k].start != g[k].start
    ensures forall i :: k < i < n ==> rs[i].start == g[i].start
    decreases n
  {
    if rs[n - 1].start != g[n - 1].start {
      k := n - 1;
    } else {
      k := LastInexact(g, rs, n - 1);
    }
  }

  lemma ReadBackReads(g: seq<Block>, start: nat, end: nat, m: nat, rs: seq<Range>)
    requires start <= end < UINT32_LIMIT - 1 && g == Greedy(start, end + 1, m) && Storable(g, m)
    requires rs == ReadBack(g, m)
    ensures |rs| == |g| && forall i :: 0 <= i < |g| ==> ReadFrom(rs[i], g[i])
    ensures forall i :: 0 <= i < |g| ==> start <= g[i].start && g[i].Stop() <= end + 1
  {
    forall i | 0 <= i < |g| ensures ReadFrom(rs[i], g[i]) && start <= g[i].start && g[i].Stop() <= end + 1 {
      EmittedRange(g, start, end, m, i);
    }
  }

  lemma InexactAddress(g: seq<Block>, start: nat, end: nat, m: nat, rs: seq<Range>) returns (i: nat)
    requires g == Greedy(start, end + 1, m) && Storable(g, m) && rs == ReadBack(g, m)
    requires !AddressesExact(start, end, m)
    ensures i < |g| == |rs| && rs[i].start != g[i].start
  {
    var b :| b in g && !(b.exp <= m && b.exp < 32 && Stored(b, m).addr == b.start);
    i :| 0 <= i < |g| && g[i] == b;
  }

  lemma InexactLeavesHole(g: seq<Block>, start: nat, end: nat, m: nat)
    requires start <= end < UINT32_LIMIT - 1 && g == Greedy(start, end + 1, m) && Storable(g, m)
    requires !AddressesExact(start, end, m)
    ensures exists x: nat :: start <= x <= end && !Covered(ReadBack(g, m), x)
  {
    var rs := ReadBack(g, m);
    ReadBackReads(g, start, end, m, rs);
    var i := InexactAddress(g, start, end, m, rs);
    var k := LastInexact(g, rs, |g|);
    assert Chain(g, start, end + 1) by { SplitTiles(start, end + 1, m); }
    LastInexactLeavesHole(g, start, end + 1, rs, k);
  }

  /** The ranges read back cover exactly [start, end] if and only if no mask changes an address. */
  lemma ReadBackCoversIff(start: nat, end: nat, m: nat)
    requires start <= end < UINT32_LIMIT - 1
    ensures Storable(Greedy(start, end + 1, m), m)
    ensures SameCover(ReadBack(Greedy(start, end + 1, m), m), [Range(start, end)])
       <==> MasksHarmless(start, end, m)
  {
    BlocksAreStorable(start, end, m);
    AddressesExactIff(start, end, m);
    var g := Greedy(start, end + 1, m);
    var rs := ReadBack(g, m);
    forall x: nat ensures Covered([Range(start, end)], x) <==> start <= x <= end {
      if start <= x <= end { assert In(x, [Range(start, end)][0]); }
    }
    if AddressesExact(start, end, m) {
      forall x: nat ensures Covered(rs, x) <==> start <= x <= end { ExactCover(start, end, m, x); }
    } else {
      InexactLeavesHole(g, start, end, m);
    }
  }

  // ---- the three programs in sequence -------------------------------------------------------

  /** range2cidr, cidr2range and range_sort_merge give back [start, end] exactly when no mask changes an address. */
  method RoundTrip(start: nat, end: nat, maxPrefix: nat, cidr: array<Cidr>, range: array<Range>)
    returns (cnt: nat, ghost merged: nat)
    requires 1 <= start <= end < INT_LIMIT && maxPrefix <= 32
    requires Records(start, end + 1, maxPrefix) <= cidr.Length
    requires Records(start, end + 1, maxPrefix) <= range.Length
    modifies cidr, range
    ensures 1 <= merged <= Records(start, end + 1, maxPrefix)
    ensures range[..merged] == [Range(start, end)] <==> MasksSuit(start, end, maxPrefix)
    ensures range[..merged] == [Range(start, end)] ==> cnt == 1
    ensures AllEmpty(range[merged..Records(start, end + 1, maxPrefix)])
  {
    hide MasksSuit, MasksHarmless, Records, Greedy;
    RecordsAre(start, end + 1, maxPrefix);
    ghost var g := Greedy(start, end + 1, maxPrefix);
    BlocksAreStorable(start, end, maxPrefix);
    MasksHarmlessIff(start, end, maxPrefix);
    var n, overrun := Split(cidr, start, end, maxPrefix);
    CidrToRange(maxPrefix, cidr, n, range, range.Length);
    ghost var rs := ReadBack(g, maxPrefix);
    assert range[..n] == rs;
    ReadBackIsWellFormed(start, end, maxPrefix);
    cnt, merged := SortMerge(range, n);
    MergedIsRangeIff(start, end, maxPrefix, range[..n], merged);
    assert range[..n][..merged] == range[..merged];
    assert range[..n][merged..] == range[merged..n];
  }

  lemma ReadBackIsWellFormed(start: nat, end: nat, m: nat)
    requires start <= end < INT_LIMIT && Storable(Greedy(start, end + 1, m), m)
    ensures WellFormed(ReadBack(Greedy(start, end + 1, m), m)) && |Greedy(start, end + 1, m)| >= 1
  {
    var g := Greedy(start, end + 1, m);
    var rs := ReadBack(g, m);
    SplitTiles(start, end + 1, m);
    forall k | 0 <= k < |rs| ensures rs[k].start <= rs[k].end < INT_LIMIT { EmittedRange(g, start, end, m, k); }
  }

  lemma MergedIsRangeIff(start: nat, end: nat, m: nat, output: seq<Range>, merged: nat)
    requires 1 <= start <= end < INT_LIMIT && Storable(Greedy(start, end + 1, m), m)
    requires 1 <= merged && IsMerge(ReadBack(Greedy(start, end + 1, m), m), output, merged)
    ensures output[..merged] == [Range(start, end)] <==> MasksHarmless(start, end, m)
    ensures output[..merged] == [Range(start, end)] ==>
      !Covered(ReadBack(Greedy(start, end + 1, m), m), 0) && merged == 1
  {
    var rs, whole := ReadBack(Greedy(start, end + 1, m), m), [Range(start, end)];
    ReadBackCoversIff(start, end, m);
    if SameCover(rs, whole) {
      forall x: nat ensures Covered(output[..merged], x) <==> Covered(whole, x) {
        assert Covered(rs, x) <==> Covered(whole, x);
      }
      CanonicalIsUnique(output[..merged], whole);
    }
    if output[..merged] == whole {
      assert |output[..merged]| == 1;
      assert !Covered(whole, 0);
    }
  }

  /** Ranges of fewer than 1024 values always come back. */
  lemma ShortRangesRoundTrip(start: nat, end: nat, m: nat)
    requires start <= end < UINT32_LIMIT - 1 && end - start < 1023
    ensures MasksSuit(start, end, m)
  {
    ShortRangesExact(start, end, m);
    AddressesExactIff(start, end, m);
    hide MasksSuit, MasksHarmless;
    MasksHarmlessIff(start, end, m);
  }
}
