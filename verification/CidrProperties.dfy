/** What the greedy split promises: exact tiling, optimality, the shape of the sizes, and which blocks it emits. */
module CidrProperties {
  import opened Bits
  import opened RangeToCidr

  // ---- tiling -------------------------------------------------------------------------------

  /** The blocks follow one another from `lo` to `hi` without gap or overlap. */
  ghost predicate Chain(bs: seq<Block>, lo: nat, hi: nat) {
    if bs == [] then lo == hi
    else bs[0].start == lo && Chain(bs[1..], bs[0].Stop(), hi)
  }

  ghost predicate Within(b: Block, lo: nat, hi: nat, m: nat) {
    b.exp <= m && b.Aligned() && lo <= b.start && b.Stop() <= hi
  }

  lemma {:induction false} SplitTiles(lo: nat, hi: nat, m: nat)
    requires lo <= hi
    ensures Chain(Greedy(lo, hi, m), lo, hi)
    ensures forall b :: b in Greedy(lo, hi, m) ==> Within(b, lo, hi, m)
    decreases hi - lo
  {
    if lo < hi {
      var e := Largest(lo, hi, m);
      SplitTiles(lo + Pow2(e), hi, m);
      var g, rest := Greedy(lo, hi, m), Greedy(lo + Pow2(e), hi, m);
      assert g[1..] == rest;
      forall b | b in g ensures Within(b, lo, hi, m) {
        if b in rest { assert Within(b, lo + Pow2(e), hi, m); }
      }
    }
  }

  ghost predicate Holds(b: Block, x: nat) { b.start <= x < b.Stop() }

  /** In a chain every value of [lo, hi) lies in exactly one block, and no other value in any. */
  lemma {:induction false} ChainHoldsEachOnce(bs: seq<Block>, lo: nat, hi: nat, x: nat)
    requires Chain(bs, lo, hi)
    ensures lo <= hi
    ensures lo <= x < hi ==> exists k :: 0 <= k < |bs| && Holds(bs[k], x)
    ensures forall k :: 0 <= k < |bs| && Holds(bs[k], x) ==> lo <= x < hi
    ensures forall j, k :: 0 <= j < k < |bs| ==> !(Holds(bs[j], x) && Holds(bs[k], x))
  {
    if bs != [] {
      var rest := bs[1..];
      ChainHoldsEachOnce(rest, bs[0].Stop(), hi, x);
      if lo <= x < hi {
        if x < bs[0].Stop() {
          assert Holds(bs[0], x);
        } else {
          var k :| 0 <= k < |rest| && Holds(rest[k], x);
          assert Holds(bs[k + 1], x);
        }
      }
      forall k | 0 <= k < |bs| && Holds(bs[k], x) ensures lo <= x < hi {
        if k > 0 { assert Holds(rest[k - 1], x); }
      }
      forall j, k | 0 <= j < k < |bs| ensures !(Holds(bs[j], x) && Holds(bs[k], x)) {
        assert bs[k] == rest[k - 1];
        if j > 0 { assert bs[j] == rest[j - 1]; }
      }
    }
  }

  // ---- optimality ---------------------------------------------------------------------------

  /** Aligned blocks inside [lo, hi) that together hold every value of it; they may overlap. */
  ghost predicate Covers(bs: set<Block>, lo: nat, hi: nat, m: nat) {
    && (forall b :: b in bs ==> Within(b, lo, hi, m))
    && (forall x: nat :: lo <= x < hi ==> SomeHolds(bs, x))
  }

  ghost predicate SomeHolds(bs: set<Block>, x: nat) {
    exists b :: b in bs && Holds(b, x)
  }

  /** An aligned block inside the range that starts in the first greedy block ends in it. */
  lemma StartsInFirstEndsInFirst(lo: nat, hi: nat, m: nat, b: Block)
    requires lo < hi && Within(b, lo, hi, m)
    requires b.start < lo + Pow2(Largest(lo, hi, m))
    ensures b.Stop() <= lo + Pow2(Largest(lo, hi, m))
  {
    var e := Largest(lo, hi, m);
    if b.exp >= e {
      MultipleOfSmaller(b.start, e, b.exp);
      if lo < b.start { MultiplesApart(lo, b.start, e); }
      assert Fits(lo, hi, b.exp);
    } else {
      MultipleOfSmaller(lo, b.exp, e);
      Pow2IsMultiple(b.exp, e);
      SumOfMultiples(lo, Pow2(e), b.exp);
      MultiplesApart(b.start, lo + Pow2(e), b.exp);
    }
  }

  /** A cover splits into the blocks inside the first greedy block and a cover of what follows. */
  lemma CoverOfRest(bs: set<Block>, lo: nat, hi: nat, m: nat, rest: set<Block>)
    requires lo < hi && Covers(bs, lo, hi, m)
    requires rest == set b | b in bs && b.start >= lo + Pow2(Largest(lo, hi, m))
    ensures Covers(rest, lo + Pow2(Largest(lo, hi, m)), hi, m)
  {
    var cut := lo + Pow2(Largest(lo, hi, m));
    forall x: nat | cut <= x < hi ensures SomeHolds(rest, x) {
      assert SomeHolds(bs, x);
      var b :| b in bs && Holds(b, x);
      if b.start < cut { StartsInFirstEndsInFirst(lo, hi, m, b); }
      assert b in rest;
    }
  }

  /** No cover of the range by aligned blocks of at most 2^m values has fewer blocks than the split. */
  lemma {:induction false} SplitIsOptimal(bs: set<Block>, lo: nat, hi: nat, m: nat)
    requires Covers(bs, lo, hi, m)
    ensures |Greedy(lo, hi, m)| <= |bs|
    decreases hi - lo
  {
    if lo < hi {
      var cut := lo + Pow2(Largest(lo, hi, m));
      var rest := set b | b in bs && b.start >= cut;
      CoverOfRest(bs, lo, hi, m, rest);
      SplitIsOptimal(rest, cut, hi, m);
      assert SomeHolds(bs, lo);
      var b :| b in bs && Holds(b, lo);
      StrictSubsetIsSmaller(rest, bs, b);
    }
  }

  lemma StrictSubsetIsSmaller<T>(a: set<T>, b: set<T>, x: T)
    requires a <= b && x in b && x !in a
    ensures |a| < |b|
  {
    assert b == (b - a) + a;
    assert x in b - a;
  }

  // ---- block sizes rise, then fall ------------------------------------------------------------

  ghost predicate Rising(bs: seq<Block>) {
    forall j, k :: 0 <= j < k < |bs| ==> bs[j].exp < bs[k].exp
  }

  ghost predicate Falling(bs: seq<Block>) {
    forall j, k :: 0 <= j < k < |bs| ==> bs[j].exp > bs[k].exp
  }

  ghost predicate AllBelow(bs: seq<Block>, e: nat) {
    forall k :: 0 <= k < |bs| ==> bs[k].exp < e
  }

  /** When 2^(e+1) is aligned but does not fit, what is left after the block is shorter than the block. */
  lemma RemainderIsShort(lo: nat, hi: nat, m: nat)
    requires lo < hi && Largest(lo, hi, m) < m && Multiple(lo, Largest(lo, hi, m) + 1)
    ensures hi - (lo + Pow2(Largest(lo, hi, m))) < Pow2(Largest(lo, hi, m))
  {
    var e := Largest(lo, hi, m);
    assert !Fits(lo, hi, e + 1);
  }

  /** From an aligned start with less than 2^k values to go, the sizes strictly fall. */
  lemma {:induction false} ShortTailFalls(lo: nat, hi: nat, m: nat, k: nat)
    requires k <= m && Multiple(lo, k) && hi - lo < Pow2(k)
    ensures Falling(Greedy(lo, hi, m)) && AllBelow(Greedy(lo, hi, m), k)
    decreases hi - lo
  {
    if lo < hi {
      var e := Largest(lo, hi, m);
      if e >= k { Pow2Monotone(k, e); }
      MultipleOfSmaller(lo, e + 1, k);
      RemainderIsShort(lo, hi, m);
      NextIsAligned(lo, e, e);
      ShortTailFalls(lo + Pow2(e), hi, m, e);
    }
  }

  lemma NextIsAligned(lo: nat, e: nat, k: nat)
    requires k <= e && Multiple(lo, e)
    ensures Multiple(lo + Pow2(e), k)
  {
    MultipleOfSmaller(lo, k, e);
    Pow2IsMultiple(k, e);
    SumOfMultiples(lo, Pow2(e), k);
  }

  /** Sizes from `bs` strictly rise up to index p, are the cap 2^m from p to q, and strictly fall from q on. */
  ghost predicate Shape(bs: seq<Block>, m: nat, p: nat, q: nat) {
    && p <= q <= |bs|
    && Rising(bs[..p]) && AllBelow(bs[..p], m)
    && (forall k :: p <= k < q ==> bs[k].exp == m)
    && Falling(bs[q..]) && AllBelow(bs[q..], m)
  }

  lemma {:induction false} PlateauThenFall(lo: nat, hi: nat, m: nat) returns (q: nat)
    requires Multiple(lo, m)
    ensures Shape(Greedy(lo, hi, m), m, 0, q)
    ensures q == 0 ==> hi < lo + Pow2(m)
    decreases hi - lo
  {
    var g := Greedy(lo, hi, m);
    if hi < lo + Pow2(m) {
      if hi <= lo { assert g == []; } else { ShortTailFalls(lo, hi, m, m); }
      q := 0;
      assert g[0..] == g;
    } else {
      assert Fits(lo, hi, m);
      var rest := Greedy(lo + Pow2(m), hi, m);
      assert g == [Block(lo, m)] + rest;
      NextIsAligned(lo, m, m);
      var q' := PlateauThenFall(lo + Pow2(m), hi, m);
      q := q' + 1;
      assert g[q..] == rest[q'..];
      forall k | 0 <= k < q ensures g[k].exp == m { if k > 0 { assert g[k] == rest[k - 1]; } }
    }
  }

  /** A block limited by the end of the range: everything from it on falls. */
  lemma LimitedByEnd(lo: nat, hi: nat, m: nat, e: nat)
    requires lo < hi && e == Largest(lo, hi, m) < m && Multiple(lo, e + 1)
    ensures Shape(Greedy(lo, hi, m), m, 0, 0)
  {
    var g, rest := Greedy(lo, hi, m), Greedy(lo + Pow2(e), hi, m);
    assert g == [Block(lo, e)] + rest;
    RemainderIsShort(lo, hi, m);
    NextIsAligned(lo, e, e);
    ShortTailFalls(lo + Pow2(e), hi, m, e);
    assert g[0..] == g;
  }

  ghost predicate NoMultipleAbove(s: nat, e: nat, m: nat) {
    forall k :: e < k <= m ==> !Multiple(s, k)
  }

  /** A block limited by its alignment: larger exponents do not divide the start. */
  lemma LimitedByAlignment(lo: nat, e: nat, m: nat)
    requires !Multiple(lo, e + 1)
    ensures NoMultipleAbove(lo, e, m)
  {
    forall k | e < k <= m ensures !Multiple(lo, k) {
      if Multiple(lo, k) { MultipleOfSmaller(lo, e + 1, k); }
    }
  }

  /** The sizes strictly rise, stay at the cap, then strictly fall. */
  lemma {:induction false} RiseThenFall(lo: nat, hi: nat, m: nat) returns (p: nat, q: nat)
    ensures Shape(Greedy(lo, hi, m), m, p, q)
    ensures p > 0 ==> NoMultipleAbove(lo, Greedy(lo, hi, m)[0].exp, m)
    decreases hi - lo
  {
    p, q := 0, 0;
    if lo < hi {
      var e := Largest(lo, hi, m);
      if e == m {
        q := PlateauThenFall(lo, hi, m);
      } else if Multiple(lo, e + 1) {
        LimitedByEnd(lo, hi, m, e);
      } else {
        var p', q' := RiseThenFall(lo + Pow2(e), hi, m);
        RiseStep(lo, hi, m, e, p', q');
        p, q := p' + 1, q' + 1;
      }
    }
  }

  lemma RiseStep(lo: nat, hi: nat, m: nat, e: nat, p: nat, q: nat)
    requires lo < hi && e == Largest(lo, hi, m) < m && !Multiple(lo, e + 1)
    requires Shape(Greedy(lo + Pow2(e), hi, m), m, p, q)
    requires p > 0 ==> NoMultipleAbove(lo + Pow2(e), Greedy(lo + Pow2(e), hi, m)[0].exp, m)
    ensures Shape(Greedy(lo, hi, m), m, p + 1, q + 1)
    ensures Greedy(lo, hi, m)[0].exp == e && NoMultipleAbove(lo, e, m)
  {
    var g, rest := Greedy(lo, hi, m), Greedy(lo + Pow2(e), hi, m);
    assert p > 0 ==> rest[0].exp > e by { OddMultiple(lo, e); }
    assert g == [Block(lo, e)] + rest;
    PrependRise(g, rest, e, m, p, q);
    LimitedByAlignment(lo, e, m);
  }

  lemma PrependRise(g: seq<Block>, rest: seq<Block>, e: nat, m: nat, p: nat, q: nat)
    requires |g| == |rest| + 1 && g[0].exp == e < m && g[1..] == rest
    requires Shape(rest, m, p, q) && (p > 0 ==> rest[0].exp > e)
    ensures Shape(g, m, p + 1, q + 1)
  {
    assert g[q + 1..] == rest[q..];
    var front := g[..p + 1];
    assert front == [g[0]] + rest[..p];
    assert p > 0 ==> rest[0] == rest[..p][0];
    forall k | p + 1 <= k < q + 1 ensures g[k].exp == m { assert g[k] == rest[k - 1]; }
  }

  lemma {:induction false} FallingIsShort(bs: seq<Block>, m: nat)
    requires Falling(bs) && AllBelow(bs, m)
    ensures |bs| <= m
  {
    if |bs| > 0 {
      assert AllBelow(bs[1..], bs[0].exp);
      FallingIsShort(bs[1..], bs[0].exp);
    }
  }

  // ---- which blocks are emitted ---------------------------------------------------------------

  /** The aligned block of twice the size that contains `b`. */
  function Parent(b: Block): (p: Block) {
    Block(b.start - Low(b.start, b.exp + 1), b.exp + 1)
  }

  /** An aligned block inside [lo, hi) that is at the cap or whose parent sticks out of the range. */
  ghost predicate Maximal(b: Block, lo: nat, hi: nat, m: nat) {
    Within(b, lo, hi, m) && (b.exp == m || !Within(Parent(b), lo, hi, m))
  }

  lemma ParentFacts(b: Block)
    requires b.Aligned()
    ensures Parent(b).Aligned() && Parent(b).start <= b.start && b.Stop() <= Parent(b).Stop()
  {
    var s := Parent(b).start;
    RoundDown(b.start, b.exp + 1);
    NextIsAligned(s, b.exp + 1, b.exp);
    MultiplesApart(b.start, s + Pow2(b.exp + 1), b.exp);
  }

  /** Dropping the first greedy block does not change which of the later blocks are maximal. */
  lemma MaximalAfterFirst(b: Block, lo: nat, hi: nat, m: nat)
    requires lo < hi && b.start >= lo + Pow2(Largest(lo, hi, m))
    ensures Maximal(b, lo, hi, m) <==> Maximal(b, lo + Pow2(Largest(lo, hi, m)), hi, m)
  {
    var cut := lo + Pow2(Largest(lo, hi, m));
    if Within(b, cut, hi, m) {
      ParentFacts(b);
      if Within(Parent(b), lo, hi, m) && Parent(b).start < cut {
        StartsInFirstEndsInFirst(lo, hi, m, Parent(b));
      }
    }
  }

  /** Of the blocks that start inside the first greedy block only that block itself is maximal. */
  lemma MaximalInFirst(b: Block, lo: nat, hi: nat, m: nat)
    requires lo < hi && b.start < lo + Pow2(Largest(lo, hi, m))
    ensures Maximal(b, lo, hi, m) <==> b == Block(lo, Largest(lo, hi, m))
  {
    var e := Largest(lo, hi, m);
    var first := Block(lo, e);
    if Within(b, lo, hi, m) {
      ParentFacts(b);
      StartsInFirstEndsInFirst(lo, hi, m, b);
      if b.exp > e { Pow2Monotone(e, b.exp); }
      if b.exp == e {
        assert b == first;
        if e < m { assert !Fits(lo, hi, e + 1); }
      } else {
        // the parent is aligned to at most the size of the first block, so it lies in it
        var p := Parent(b);
        MultipleOfSmaller(lo, p.exp, e);
        NextIsAligned(lo, e, p.exp);
        if p.start < lo { MultiplesApart(p.start, lo, p.exp); }
        MultiplesApart(p.start, lo + Pow2(e), p.exp);
        assert Within(p, lo, hi, m);
      }
    }
    ParentFacts(first);
  }

  /** The split emits exactly the maximal aligned blocks of the range. */
  lemma {:induction false} EmittedIffMaximal(b: Block, lo: nat, hi: nat, m: nat)
    ensures b in Greedy(lo, hi, m) <==> Maximal(b, lo, hi, m)
    decreases hi - lo
  {
    if lo < hi {
      var cut := lo + Pow2(Largest(lo, hi, m));
      EmittedIffMaximal(b, cut, hi, m);
      assert b in Greedy(lo, hi, m) <==> b == Block(lo, Largest(lo, hi, m)) || b in Greedy(cut, hi, m);
      if b.start < cut {
        MaximalInFirst(b, lo, hi, m);
      } else {
        MaximalAfterFirst(b, lo, hi, m);
      }
    }
  }

  // ---- where the stored address is the start of the block -----------------------------------

  /** The table keeps the address of a block exactly when the bits it clears are zero. */
  lemma StoredAddressIsStart(b: Block, m: nat)
    requires b.start < UINT32_LIMIT && b.exp <= m && b.exp < 32
    ensures Stored(b, m).addr <= b.start
    ensures Stored(b, m).addr == b.start <==> Multiple(b.start, Cleared(b.exp))
  {
    MaskMeaning(b.exp);
    Pow2Literals();
    HighMask(b.start, Cleared(b.exp), 32, MaskMap(b.exp));
    MultipleIff(b.start, Cleared(b.exp));
  }

  /** The record of a block: its start without the bits the table clears, and the prefix that gives its size. */
  lemma RecordOf(b: Block, m: nat)
    requires b.start < 0x1_0000_0000 && b.exp <= m && b.exp < 32
    ensures Stored(b, m).prefix == m - b.exp
    ensures b.exp <= 9 && b.Aligned() ==> Stored(b, m).addr == b.start
    ensures 10 <= b.exp <= 25 ==> Stored(b, m).addr == b.start - Low(b.start, b.exp + 1 + (b.exp - 10) / 3)
    ensures 26 <= b.exp ==> Stored(b, m).addr == 0
  {
    MaskLaw(b.exp);
    MaskMeaning(b.exp);
    Pow2Literals();
    hide MaskMap, Cleared, Low, Multiple, And, Pow2;
    HighMask(b.start, Cleared(b.exp), 32, MaskMap(b.exp));
    LowOfSmall(b.start, 32);
    MultipleIff(b.start, b.exp);
  }

  /** Every maximal block of 1024 values or more starts at a multiple of the power its mask keeps. */
  ghost predicate MasksHarmless(start: nat, end: nat, m: nat) {
    forall b: Block :: 10 <= b.exp < 32 && Maximal(b, start, end + 1, m) ==> Multiple(b.start, Cleared(b.exp))
  }

  ghost predicate AddressesExact(start: nat, end: nat, m: nat) {
    forall b :: b in Greedy(start, end + 1, m) ==> b.exp <= m && b.exp < 32 && Stored(b, m).addr == b.start
  }

  lemma HarmlessImpliesExact(start: nat, end: nat, m: nat)
    requires start <= end < UINT32_LIMIT - 1 && MasksHarmless(start, end, m)
    ensures AddressesExact(start, end, m)
  {
    forall b | b in Greedy(start, end + 1, m)
      ensures b.exp <= m && b.exp < 32 && Stored(b, m).addr == b.start
    {
      EmittedBlock(b, start, end, m);
      MaskMeaning(b.exp);
    }
  }

  lemma ExactBlockSuitsMask(b: Block, start: nat, end: nat, m: nat)
    requires start <= end < UINT32_LIMIT - 1 && AddressesExact(start, end, m)
    requires b.exp < 32 && Maximal(b, start, end + 1, m)
    ensures Multiple(b.start, Cleared(b.exp))
  {
    assert b.exp <= m && Stored(b, m).addr == b.start by { EmittedIffMaximal(b, start, end + 1, m); }
    hide AddressesExact, Maximal, Stored, Multiple;
    StoredAddressIsStart(b, m);
  }

  lemma ExactImpliesHarmless(start: nat, end: nat, m: nat)
    requires start <= end < UINT32_LIMIT - 1 && AddressesExact(start, end, m)
    ensures MasksHarmless(start, end, m)
  {
    forall b: Block | 10 <= b.exp < 32 && Maximal(b, start, end + 1, m) ensures Multiple(b.start, Cleared(b.exp)) {
      ExactBlockSuitsMask(b, start, end, m);
    }
  }

  /** Every address is stored exactly if and only if every large maximal block suits its mask. */
  lemma AddressesExactIff(start: nat, end: nat, m: nat)
    requires start <= end < UINT32_LIMIT - 1
    ensures AddressesExact(start, end, m) <==> MasksHarmless(start, end, m)
  {
    if MasksHarmless(start, end, m) { HarmlessImpliesExact(start, end, m); }
    if AddressesExact(start, end, m) { ExactImpliesHarmless(start, end, m); }
  }

  lemma EmittedBlock(b: Block, start: nat, end: nat, m: nat)
    requires start <= end < UINT32_LIMIT - 1 && b in Greedy(start, end + 1, m)
    ensures b.exp <= m && b.exp < 32 && b.Aligned() && Maximal(b, start, end + 1, m)
    ensures Stored(b, m).addr <= b.start
    ensures Stored(b, m).addr == b.start <==> Multiple(b.start, Cleared(b.exp))
  {
    EmittedIffMaximal(b, start, end + 1, m);
    ExponentBelow32(b.start, end + 1, b.exp);
    StoredAddressIsStart(b, m);
  }

  /** Ranges of fewer than 1024 values are always stored exactly. */
  lemma ShortRangesExact(start: nat, end: nat, m: nat)
    requires start <= end < UINT32_LIMIT - 1 && end - start < 1023
    ensures AddressesExact(start, end, m)
  {
    AddressesExactIff(start, end, m);
    forall b: Block | Maximal(b, start, end + 1, m) ensures b.exp < 10 {
      Pow2Literals();
      if b.exp >= 10 { Pow2Monotone(10, b.exp); }
    }
  }

  /** The shortest failing range: [1024, 2047] is one block, and it is stored at address 0. */
  lemma MaskFailsAt1024(start: nat, end: nat, m: nat)
    requires start == 1024 && end == 2047 && m == 32
    ensures Greedy(start, end + 1, m) == [Block(start, 10)]
    ensures Stored(Block(start, 10), m) == Cidr(0, 22)
    ensures !AddressesExact(start, end, m)
  {
    Pow2Literals();
    Pow2IsMultiple(10, 10);
    var hi := end + 1;
    forall j | 10 < j <= m ensures !Fits(start, hi, j) { Pow2Monotone(11, j); }
    LargestIs(start, hi, m, 10);
    assert Greedy(start + Pow2(10), end + 1, m) == [];
    HighMask(start, 11, m, MaskMap(10));
    LowOfSmall(start, 11);
    assert Block(start, 10) in Greedy(start, end + 1, m);
  }
}
