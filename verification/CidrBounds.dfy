/** How many blocks a split needs, when it ends at all, and which ranges the mask table handles right. */
module CidrBounds {
  import opened Bits
  import opened RangeToCidr
  import opened CidrProperties

  // ---- the number of blocks -----------------------------------------------------------------------

  /** Between two neighbouring multiples of 2^k nothing is one. */
  lemma BetweenMultiples(a: nat, k: nat, s: nat, e: nat)
    requires Multiple(a, k) && a < s < a + Pow2(k) && Multiple(s, e)
    ensures e < k && s + Pow2(e) <= a + Pow2(k)
  {
    if e >= k {
      MultipleOfSmaller(s, k, e);
      MultiplesApart(a, s, k);
    } else {
      NextIsAligned(a, k, e);
      MultiplesApart(s, a + Pow2(k), e);
    }
  }

  lemma Halves(k: nat)
    requires k > 0
    ensures Pow2(k) == 2 * Pow2(k - 1)
  {
  }

  lemma AnyIsAligned(s: nat)
    ensures Multiple(s, 0) && Pow2(0) == 1
  {
  }

  /** The largest block at a multiple of 2^j that ends at a later multiple of 2^j has at least 2^j values. */
  lemma LargestAtLeast(s: nat, hi: nat, m: nat, j: nat)
    requires s < hi && j <= m && Fits(s, hi, j)
    ensures Largest(s, hi, m) >= j
  {
  }

  /** From inside an aligned block to its end the exponents rise one by one at least. */
  lemma {:induction false} UpToBlockEnd(a: nat, k: nat, lo: nat, m: nat, j: nat)
    requires Multiple(a, k) && a < lo <= a + Pow2(k) && j <= k <= m && Multiple(lo, j)
    ensures |Greedy(lo, a + Pow2(k), m)| <= k - j
    decreases a + Pow2(k) - lo
  {
    var hi := a + Pow2(k);
    if lo < hi {
      var e := Largest(lo, hi, m);
      BetweenMultiples(a, k, lo, e);
      BetweenMultiples(a, k, lo, j);
      LargestAtLeast(lo, hi, m, j);
      if Multiple(lo, e + 1) {
        BetweenMultiples(a, k, lo, e + 1);
        LargestAtLeast(lo, hi, m, e + 1);
      }
      OddMultiple(lo, e);
      UpToBlockEnd(a, k, lo + Pow2(e), m, e + 1);
    }
  }

  lemma NoneAboveShorter(s: nat, cut: nat, hi: nat, e: nat, m: nat)
    requires cut <= hi && NoneAbove(s, hi, e, m)
    ensures NoneAbove(s, cut, e, m)
  {
    hide Multiple, Pow2;
    forall j | e < j <= m ensures !Fits(s, cut, j) { assert !Fits(s, hi, j); }
  }

  lemma FirstBlock(lo: nat, hi: nat, m: nat, e: nat)
    requires lo < hi && e == Largest(lo, hi, m)
    ensures Greedy(lo, hi, m) == [Block(lo, e)] + Greedy(lo + Pow2(e), hi, m)
  {
    hide Multiple, Pow2;
  }

  /** A split that starts inside an aligned block and goes on behind it has a cut at its end. */
  lemma {:induction false} CutAtBlockEnd(a: nat, k: nat, lo: nat, hi: nat, m: nat)
    requires Multiple(a, k) && a < lo <= a + Pow2(k) <= hi
    ensures Greedy(lo, hi, m) == Greedy(lo, a + Pow2(k), m) + Greedy(a + Pow2(k), hi, m)
    decreases hi - lo
  {
    hide Multiple, Pow2, Greedy, NoneAbove;
    var cut := a + Pow2(k);
    if lo == cut {
      NoBlocks(lo, cut, m);
    } else {
      var e := Largest(lo, hi, m);
      BetweenMultiples(a, k, lo, e);
      NoneAboveShorter(lo, cut, hi, e, m);
      LargestIs(lo, cut, m, e);
      FirstBlock(lo, hi, m, e);
      FirstBlock(lo, cut, m, e);
      CutAtBlockEnd(a, k, lo + Pow2(e), hi, m);
    }
  }

  /** The most blocks a range inside an aligned block of 2^k values can need. */
  function Most(k: nat): nat { if k <= 1 then 1 else 2 * k - 2 }

  lemma WholeBlock(a: nat, k: nat, m: nat)
    requires Multiple(a, k) && k <= m
    ensures |Greedy(a, a + Pow2(k), m)| == 1
  {
    var e := Largest(a, a + Pow2(k), m);
    LargestAtLeast(a, a + Pow2(k), m, k);
    if e > k { Pow2Monotone(k, e); }
    assert Greedy(a + Pow2(k), a + Pow2(k), m) == [];
  }

  lemma FromBlockStart(a: nat, k: nat, hi: nat, m: nat)
    requires Multiple(a, k) && k <= m && hi - a < Pow2(k)
    ensures |Greedy(a, hi, m)| <= k
  {
    ShortTailFalls(a, hi, m, k);
    FallingIsShort(Greedy(a, hi, m), k);
  }

  /** A range across the middle of the block that reaches neither end of it. */
  lemma AcrossTheMiddle(a: nat, k: nat, lo: nat, hi: nat, m: nat)
    requires 1 <= k <= m && Multiple(a, k) && a < lo < a + Pow2(k - 1) < hi < a + Pow2(k)
    ensures |Greedy(lo, hi, m)| <= 2 * k - 2
  {
    hide Multiple, Pow2, Greedy;
    Halves(k);
    AnyIsAligned(lo);
    var mid := a + Pow2(k - 1);
    MultipleOfSmaller(a, k - 1, k);
    NextIsAligned(a, k - 1, k - 1);
    CutAtBlockEnd(a, k - 1, lo, hi, m);
    UpToBlockEnd(a, k - 1, lo, m, 0);
    FromBlockStart(mid, k - 1, hi, m);
  }

  lemma {:induction false} MostInBlock(a: nat, k: nat, lo: nat, hi: nat, m: nat)
    requires Multiple(a, k) && k <= m && a <= lo && hi <= a + Pow2(k)
    ensures |Greedy(lo, hi, m)| <= Most(k)
    decreases k
  {
    if lo < hi {
      if lo == a && hi == a + Pow2(k) {
        WholeBlock(a, k, m);
      } else if k > 0 {
        var mid := a + Pow2(k - 1);
        MultipleOfSmaller(a, k - 1, k);
        if hi <= mid {
          MostInBlock(a, k - 1, lo, hi, m);
        } else if lo >= mid {
          NextIsAligned(a, k - 1, k - 1);
          MostInBlock(mid, k - 1, lo, hi, m);
        } else if lo == a {
          FromBlockStart(a, k, hi, m);
        } else if hi == a + Pow2(k) {
          UpToBlockEnd(a, k, lo, m, 0);
        } else {
          AcrossTheMiddle(a, k, lo, hi, m);
        }
      }
    }
  }

  lemma {:induction false} ZeroIsMultiple(k: nat)
    ensures Multiple(0, k)
  {
    if k > 0 { ZeroIsMultiple(k - 1); }
  }

  /** A range below 2^m needs at most 2m - 2 blocks (one when m is at most 1). */
  lemma MostBlocks(lo: nat, hi: nat, m: nat)
    requires hi <= Pow2(m)
    ensures |Greedy(lo, hi, m)| <= Most(m)
  {
    ZeroIsMultiple(m);
    MostInBlock(0, m, lo, hi, m);
  }

  lemma {:induction false} BetweenPowers(j: nat, k: nat, m: nat)
    requires j <= k <= m
    ensures |Greedy(Pow2(j), Pow2(k), m)| == k - j
    decreases k - j
  {
    if j < k {
      Pow2Monotone(j, k);
      Pow2IsMultiple(j, j);
      forall e | j < e <= m ensures !Fits(Pow2(j), Pow2(k), e) {
        if Multiple(Pow2(j), e) {
          ZeroIsMultiple(e);
          MultiplesApart(0, Pow2(j), e);
          Pow2Monotone(j, e);
        }
      }
      LargestIs(Pow2(j), Pow2(k), m, j);
      BetweenPowers(j + 1, k, m);
    }
  }

  lemma {:induction false} OneShortOfBlock(lo: nat, j: nat, m: nat)
    requires Multiple(lo, j) && j <= m
    ensures |Greedy(lo, lo + Pow2(j) - 1, m)| == j
    decreases j
  {
    if j > 0 {
      var e, hi := j - 1, lo + Pow2(j) - 1;
      MultipleOfSmaller(lo, e, j);
      forall i | e < i <= m ensures !Fits(lo, hi, i) { Pow2Monotone(j, i); }
      LargestIs(lo, hi, m, e);
      NextIsAligned(lo, e, e);
      OneShortOfBlock(lo + Pow2(e), e, m);
    }
  }

  /** The bound is reached by [1, 2^m - 2]; with the prefix 32 that is 62 records. */
  lemma MostBlocksReached(m: nat)
    requires m >= 2
    ensures |Greedy(1, Pow2(m) - 1, m)| == Most(m)
  {
    hide Multiple, Pow2, Greedy;
    var half := Pow2(m - 1);
    Halves(m);
    Halves(m - 1);
    AnyIsAligned(1);
    ZeroIsMultiple(m - 1);
    Pow2IsMultiple(m - 1, m - 1);
    CutAtBlockEnd(0, m - 1, 1, Pow2(m) - 1, m);
    BetweenPowers(0, m - 1, m);
    OneShortOfBlock(half, m - 1, m);
  }

  // ---- when the loop ends ---------------------------------------------------------------------------

  /** The running start after `passes` passes of the loop, in 32 bits. */
  function RunningStart(s: nat, end: nat, m: nat, passes: nat): (r: nat)
    requires s < UINT32_LIMIT && end < UINT32_LIMIT
    ensures r < UINT32_LIMIT
    decreases passes
  {
    if passes == 0 || s > end then s
    else
      var next := s + Pow2(Largest(s, end + 1, m));
      RunningStart(if next == UINT32_LIMIT then 0 else next, end, m, passes - 1)
  }

  lemma {:induction false} PassesNeeded(s: nat, end: nat, m: nat) returns (passes: nat)
    requires s < UINT32_LIMIT && end < UINT32_LIMIT - 1
    ensures RunningStart(s, end, m, passes) > end
    decreases end + 1 - s
  {
    if s > end {
      passes := 0;
    } else {
      var rest := PassesNeeded(s + Pow2(Largest(s, end + 1, m)), end, m);
      passes := rest + 1;
    }
  }

  /** The loop ends if and only if the range stops short of the largest 32-bit value; otherwise the start wraps to 0. */
  lemma LoopEndsIff(start: nat, end: nat, m: nat)
    requires start < UINT32_LIMIT && end < UINT32_LIMIT
    ensures (exists passes: nat :: RunningStart(start, end, m, passes) > end) <==> end < UINT32_LIMIT - 1
  {
    if end < UINT32_LIMIT - 1 { var passes := PassesNeeded(start, end, m); }
  }

  // ---- which ranges the mask table handles right ------------------------------------------------------

  /** The position of the highest binary digit. */
  function TopDigit(d: nat): (e: nat)
    requires d > 0
    ensures Pow2(e) <= d < Pow2(e + 1)
  {
    if d == 1 then Pow2Literals(); 0 else 1 + TopDigit(d / 2)
  }

  lemma TopDigitBelow(d: nat, k: nat)
    requires 0 < d < Pow2(k)
    ensures TopDigit(d) < k
  {
    if TopDigit(d) >= k { Pow2Monotone(k, TopDigit(d)); }
  }

  /** The first multiple of 2^k from s on. */
  function RoundUpTo(s: nat, k: nat): (c: nat)
    ensures s <= c < s + Pow2(k) && Multiple(c, k)
  {
    RoundDown(s, k);
    MultipleIff(s, k);
    Pow2IsMultiple(k, k);
    SumOfMultiples(s - Low(s, k), Pow2(k), k);
    if Low(s, k) == 0 then s else s - Low(s, k) + Pow2(k)
  }

  /** The first multiple of 1024 from s on. */
  function RoundUp(s: nat): (a: nat)
    ensures Multiple(a, 10) && s <= a < s + 1024
  {
    Pow2Literals();
    RoundUpTo(s, 10)
  }

  /** Each digit of d of 1024 or more is far enough below the digit before it. */
  predicate Spaced(d: nat, above: nat)
    requires d < UINT32_LIMIT
    decreases d
  {
    d < 1024 ||
    (Pow2Literals(); TopDigitBelow(d, 32);
     var e := TopDigit(d);
     Cleared(e) <= above && Spaced(d - Pow2(e), e))
  }

  /**
   * What a caller can check from the two ends alone: with a the first multiple of 1024 and d the length from there, the
   * mask of the top digit of d divides a, and the lower digits of d are spaced.
   */
  predicate MasksSuit(start: nat, end: nat, m: nat)
    requires start <= end < UINT32_LIMIT - 1
  {
    var a := RoundUp(start);
    || m < 10
    || end + 1 < a + 1024
    || (Pow2Literals(); TopDigitBelow(end + 1 - a, 32);
        var d := end + 1 - a;
        var e := TopDigit(d);
        e <= m && Multiple(a, Cleared(e)) && Spaced(d - Pow2(e), e))
  }

  ghost predicate Suits(b: Block) {
    10 <= b.exp < 32 ==> Multiple(b.start, Cleared(b.exp))
  }

  ghost predicate AllSuit(bs: seq<Block>) {
    forall b :: b in bs ==> Suits(b)
  }

  /** With the exponents above 32 out of reach, a split of a few values has only small blocks. */
  lemma FewValuesSuit(lo: nat, hi: nat, m: nat)
    requires lo <= hi && (m < 10 || hi - lo < 1024)
    ensures AllSuit(Greedy(lo, hi, m))
  {
    SplitTiles(lo, hi, m);
    forall b | b in Greedy(lo, hi, m) ensures Suits(b) {
      assert Within(b, lo, hi, m);
      Pow2Literals();
      if b.exp >= 10 { Pow2Monotone(10, b.exp); }
    }
  }

  lemma FirstOfGreedy(lo: nat, hi: nat, m: nat)
    requires lo < hi
    ensures var e := Largest(lo, hi, m);
      AllSuit(Greedy(lo, hi, m)) <==> Suits(Block(lo, e)) && AllSuit(Greedy(lo + Pow2(e), hi, m))
  {
    var e := Largest(lo, hi, m);
    var g, rest := Greedy(lo, hi, m), Greedy(lo + Pow2(e), hi, m);
    assert g == [Block(lo, e)] + rest;
    assert Block(lo, e) in g && forall b :: b in rest ==> b in g;
  }

  /** From a start aligned to the top digit of the length, that digit is the first block. */
  lemma TopDigitFirst(lo: nat, hi: nat, m: nat, e: nat)
    requires lo < hi && e == TopDigit(hi - lo) && Multiple(lo, e) && e <= m
    ensures Largest(lo, hi, m) == e
  {
    forall j | e < j <= m ensures !Fits(lo, hi, j) { Pow2Monotone(e + 1, j); }
    LargestIs(lo, hi, m, e);
  }

  /** Aligned to 2^k and to no larger power. */
  ghost predicate JustAligned(s: nat, k: nat) { Multiple(s, k) && !Multiple(s, k + 1) }

  lemma JustAlignedIff(s: nat, k: nat, j: nat)
    requires JustAligned(s, k)
    ensures Multiple(s, j) <==> j <= k
  {
    if j <= k { MultipleOfSmaller(s, j, k); } else if Multiple(s, j) { MultipleOfSmaller(s, k + 1, j); }
  }

  lemma JustAlignedNext(s: nat, e: nat)
    requires Multiple(s, e + 1)
    ensures JustAligned(s + Pow2(e), e)
  {
    MultipleOfSmaller(s, e, e + 1);
    NextIsAligned(s, e, e);
    if Multiple(s + Pow2(e), e + 1) { MultiplesApart(s, s + Pow2(e), e + 1); }
  }

  lemma {:induction false} RestSuitsIff(lo: nat, hi: nat, m: nat, above: nat)
    requires lo <= hi && hi - lo < UINT32_LIMIT && hi - lo < Pow2(above) && above <= m && JustAligned(lo, above)
    ensures AllSuit(Greedy(lo, hi, m)) <==> Spaced(hi - lo, above)
    decreases hi - lo
  {
    hide AllSuit, JustAligned, Greedy, Multiple, Cleared, TopDigit;
    if hi - lo < 1024 {
      FewValuesSuit(lo, hi, m);
    } else {
      var e := TopDigit(hi - lo);
      LargeDigit(hi - lo, above);
      JustAlignedIff(lo, above, e);
      JustAlignedIff(lo, above, e + 1);
      JustAlignedIff(lo, above, Cleared(e));
      TopDigitFirst(lo, hi, m, e);
      FirstOfGreedy(lo, hi, m);
      JustAlignedNext(lo, e);
      RestSuitsIff(lo + Pow2(e), hi, m, e);
    }
  }

  lemma LargeDigit(d: nat, above: nat)
    requires 1024 <= d < UINT32_LIMIT && d < Pow2(above)
    ensures 10 <= TopDigit(d) < above && TopDigit(d) < 32
  {
    Pow2Literals();
    TopDigitBelow(d, above);
    TopDigitBelow(d, 32);
    if TopDigit(d) < 10 { Pow2Monotone(TopDigit(d) + 1, 10); }
  }

  /** From a multiple of 1024 with at least 1024 values to go. */
  lemma LargeSuitsIff(a: nat, hi: nat, m: nat, e: nat)
    requires Multiple(a, 10) && m >= 10 && a + 1024 <= hi && hi - a < UINT32_LIMIT && e == TopDigit(hi - a) < 32
    ensures AllSuit(Greedy(a, hi, m)) <==> e <= m && Multiple(a, Cleared(e)) && Spaced(hi - a - Pow2(e), e)
  {
    Pow2Literals();
    hide AllSuit, Greedy, Spaced, Multiple, Cleared, Pow2, TopDigit, JustAligned;
    Halves(e + 1);
    LargeDigit(hi - a, 32);
    MaskMeaning(e);
    FirstOfGreedy(a, hi, m);
    if e <= m && Multiple(a, Cleared(e)) {
      MultipleOfSmaller(a, e + 1, Cleared(e));
      MultipleOfSmaller(a, e, Cleared(e));
      TopDigitFirst(a, hi, m, e);
      JustAlignedNext(a, e);
      RestSuitsIff(a + Pow2(e), hi, m, e);
    } else if AllSuit(Greedy(a, hi, m)) {
      LargeSuitOnlyIf(a, hi, m, e);
    }
  }

  lemma LargeSuitOnlyIf(a: nat, hi: nat, m: nat, e: nat)
    requires Multiple(a, 10) && m >= 10 && a + 1024 <= hi && hi - a < UINT32_LIMIT && e == TopDigit(hi - a) < 32
    requires AllSuit(Greedy(a, hi, m))
    ensures e <= m && Multiple(a, Cleared(e))
  {
    Pow2Literals();
    hide AllSuit, Greedy, Multiple, Cleared, TopDigit;
    var f := Largest(a, hi, m);
    LargestAtLeast(a, hi, m, 10);
    FirstOfGreedy(a, hi, m);
    if f >= 32 { Pow2Monotone(32, f); }
    MaskMeaning(f);
    MultipleOfSmaller(a, f + 1, Cleared(f));
    if hi - a >= Pow2(f + 1) {
      if f < m { LargestAtLeast(a, hi, m, f + 1); }
      SecondFullBlock(a, hi, m);
    }
    if e < f { Pow2Monotone(e + 1, f); }
    if e > f { Pow2Monotone(f + 1, e); }
  }

  /** Two blocks at the cap cannot both suit its mask. */
  lemma SecondFullBlock(a: nat, hi: nat, m: nat)
    requires 10 <= m < 32 && Multiple(a, m + 1) && a + Pow2(m + 1) <= hi && Largest(a, hi, m) == m
    ensures !AllSuit(Greedy(a, hi, m))
  {
    hide AllSuit, Greedy, Multiple, Cleared, Pow2, JustAligned;
    Halves(m + 1);
    JustAlignedNext(a, m);
    FirstOfGreedy(a, hi, m);
    LargestAtLeast(a + Pow2(m), hi, m, m);
    FirstOfGreedy(a + Pow2(m), hi, m);
    MaskMeaning(m);
    JustAlignedIff(a + Pow2(m), m, Cleared(m));
  }

  /** A large block is maximal in the range if and only if it is from the first multiple of 1024 on. */
  lemma LargeFromRoundUp(b: Block, start: nat, hi: nat, m: nat)
    requires b.exp >= 10
    ensures Maximal(b, start, hi, m) <==> Maximal(b, RoundUp(start), hi, m)
  {
    WithinFromRoundUp(b, start, hi, m);
    if b.Aligned() {
      ParentFacts(b);
      WithinFromRoundUp(Parent(b), start, hi, m);
    }
  }

  lemma WithinFromRoundUp(b: Block, start: nat, hi: nat, m: nat)
    requires b.exp >= 10
    ensures Within(b, start, hi, m) <==> Within(b, RoundUp(start), hi, m)
  {
    var a := RoundUp(start);
    if Within(b, start, hi, m) && b.start < a {
      MultipleOfSmaller(b.start, 10, b.exp);
      MultiplesApart(b.start, a, 10);
      Pow2Literals();
    }
  }

  /** The masks are harmless for the split if and only if they are for the split from the first multiple of 1024 on. */
  lemma HarmlessFromRoundUp(start: nat, end: nat, m: nat)
    requires start <= end < UINT32_LIMIT - 1
    ensures MasksHarmless(start, end, m) <==> AllSuit(Greedy(RoundUp(start), end + 1, m))
  {
    hide Greedy, Maximal;
    var a, hi := RoundUp(start), end + 1;
    var g := Greedy(a, hi, m);
    if MasksHarmless(start, end, m) {
      forall b | b in g ensures Suits(b) {
        EmittedIffMaximal(b, a, hi, m);
        if b.exp >= 10 { LargeFromRoundUp(b, start, hi, m); }
      }
    }
    if AllSuit(g) {
      forall b: Block | 10 <= b.exp < 32 && Maximal(b, start, hi, m) ensures Multiple(b.start, Cleared(b.exp)) {
        LargeFromRoundUp(b, start, hi, m);
        EmittedIffMaximal(b, a, hi, m);
      }
    }
  }

  /** The closed form of the condition under which every address is stored right. */
  lemma MasksHarmlessIff(start: nat, end: nat, m: nat)
    requires start <= end < UINT32_LIMIT - 1
    ensures MasksHarmless(start, end, m) <==> MasksSuit(start, end, m)
  {
    hide AllSuit, Greedy, MasksHarmless, Spaced, Multiple, Cleared, TopDigit;
    HarmlessFromRoundUp(start, end, m);
    var a, hi := RoundUp(start), end + 1;
    if hi <= a {
      EmptySuits(a, hi, m);
    } else if m < 10 || hi < a + 1024 {
      FewValuesSuit(a, hi, m);
    } else {
      Pow2Literals();
      TopDigitBelow(hi - a, 32);
      LargeSuitsIff(a, hi, m, TopDigit(hi - a));
    }
  }

  lemma EmptySuits(lo: nat, hi: nat, m: nat)
    requires lo >= hi
    ensures AllSuit(Greedy(lo, hi, m))
  {
  }
}
