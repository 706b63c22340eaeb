/** Exactly how many records a split writes, from the two ends and the prefix alone, and when they fit the buffer. */
module CidrCount {
  import opened Bits
  import opened RangeToCidr
  import opened CidrProperties
  import opened CidrBounds

  // ---- binary digits ------------------------------------------------------------------------------

  /** The number of ones in binary. */
  function Ones(d: nat): nat {
    if d == 0 then 0 else d % 2 + Ones(d / 2)
  }

  /** The quotient by 2^m. */
  function High(d: nat, m: nat): nat
    decreases m
  {
    if m == 0 then d else High(d / 2, m - 1)
  }

  lemma {:induction false} HighAndLow(d: nat, m: nat)
    ensures d == Pow2(m) * High(d, m) + Low(d, m)
    decreases m
  {
    if m > 0 {
      HighAndLow(d / 2, m - 1);
      Regroup(Pow2(m - 1), High(d / 2, m - 1));
    }
  }

  lemma {:induction false} HighOfSmall(d: nat, m: nat)
    requires d < Pow2(m)
    ensures High(d, m) == 0 && Low(d, m) == d
    decreases m
  {
    if m > 0 { HighOfSmall(d / 2, m - 1); }
  }

  lemma {:induction false} HighStep(d: nat, m: nat)
    requires d >= Pow2(m)
    ensures High(d, m) == High(d - Pow2(m), m) + 1 && Low(d, m) == Low(d - Pow2(m), m)
    decreases m
  {
    if m > 0 {
      Halving(d - Pow2(m), d / 2 - Pow2(m - 1), d % 2);
      HighStep(d / 2, m - 1);
    }
  }

  lemma OnesStep(h: nat, r: nat)
    requires r < 2
    ensures Ones(2 * h + r) == r + Ones(h)
  {
    Halving(2 * h + r, h, r);
  }

  lemma TopOfHalf(d: nat, h: nat)
    requires d > 0 && h == d / 2
    ensures d > 1 ==> h > 0 && TopDigit(d) == TopDigit(h) + 1 && Pow2(TopDigit(d)) == 2 * Pow2(TopDigit(h))
    ensures d == 1 ==> TopDigit(d) == 0 && Pow2(TopDigit(d)) == 1
  {
  }

  lemma LowestOfHalf(d: nat, e: nat, h: nat, r: nat)
    requires JustAligned(d, e) && d >= Pow2(e) && h == d / 2 && r == d % 2
    ensures if e == 0 then r == 1 && Pow2(e) == 1
            else r == 0 && JustAligned(h, e - 1) && Pow2(e) == 2 * Pow2(e - 1) && h >= Pow2(e - 1)
  {
  }

  /** Taking out the highest one. */
  lemma {:induction false} OnesWithoutTop(d: nat)
    requires d > 0
    ensures Ones(d) == 1 + Ones(d - Pow2(TopDigit(d)))
  {
    var h, r := d / 2, d % 2;
    OnesStep(h, r);
    TopOfHalf(d, h);
    hide Ones, TopDigit;
    if d > 1 {
      OnesWithoutTop(h);
      OnesStep(h - Pow2(TopDigit(h)), r);
    } else {
      NoOnes();
    }
  }

  /** Taking out the lowest one. */
  lemma {:induction false} OnesWithoutLowest(d: nat, e: nat)
    requires JustAligned(d, e) && d >= Pow2(e)
    ensures Ones(d) == 1 + Ones(d - Pow2(e))
    decreases e
  {
    var h, r := d / 2, d % 2;
    LowestOfHalf(d, e, h, r);
    hide Ones, JustAligned;
    OnesStep(h, r);
    if e > 0 {
      OnesWithoutLowest(h, e - 1);
      OnesStep(h - Pow2(e - 1), r);
    } else {
      OnesStep(h, 0);
    }
  }

  lemma {:induction false} DifferenceOfMultiples(a: nat, b: nat, k: nat)
    requires Multiple(a, k) && Multiple(b, k) && a <= b
    ensures Multiple(b - a, k)
    decreases k
  {
    if k > 0 {
      Halving(b - a, b / 2 - a / 2, 0);
      DifferenceOfMultiples(a / 2, b / 2, k - 1);
    }
  }

  // ---- the three parts of a split -------------------------------------------------------------------

  /** From a multiple of 2^k, less than 2^k values: one block for each one of the length. */
  lemma {:induction false} FallingPart(c: nat, hi: nat, m: nat, k: nat)
    requires c <= hi && Multiple(c, k) && k <= m && hi - c < Pow2(k)
    ensures |Greedy(c, hi, m)| == Ones(hi - c)
    decreases hi - c
  {
    hide Multiple, Greedy, TopDigit;
    if c == hi {
      NoBlocks(c, hi, m);
    } else {
      var e := TopDigit(hi - c);
      TopDigitBelow(hi - c, k);
      MultipleOfSmaller(c, e, k);
      TopDigitFirst(c, hi, m, e);
      FirstBlock(c, hi, m, e);
      NextIsAligned(c, e, e);
      OnesWithoutTop(hi - c);
      FallingPart(c + Pow2(e), hi, m, e);
    }
  }

  lemma RisingBlock(lo: nat, c: nat, m: nat, k: nat, e: nat)
    requires lo < c && Multiple(c, k) && k <= m && c - lo < Pow2(k) && e == Largest(lo, c, m)
    ensures e < k && JustAligned(c - lo, e)
  {
    hide Multiple, Pow2;
    if e >= k { Pow2Monotone(k, e); }
    MultipleOfSmaller(c, e, k);
    DifferenceOfMultiples(lo, c, e);
    if Multiple(c - lo, e + 1) {
      MultipleOfSmaller(c, e + 1, k);
      DifferenceOfMultiples(c - lo, c, e + 1);
      MultiplesApart(lo, c, e + 1);
      LargestAtLeast(lo, c, m, e + 1);
    }
  }

  /** Up to a multiple of 2^k, less than 2^k values: the same. */
  lemma {:induction false} RisingPart(lo: nat, c: nat, m: nat, k: nat)
    requires lo <= c && Multiple(c, k) && k <= m && c - lo < Pow2(k)
    ensures |Greedy(lo, c, m)| == Ones(c - lo)
    decreases c - lo
  {
    hide Multiple, Greedy, JustAligned, Pow2;
    if lo == c {
      NoBlocks(lo, c, m);
    } else {
      var e := Largest(lo, c, m);
      RisingBlock(lo, c, m, k, e);
      FirstBlock(lo, c, m, e);
      OnesWithoutLowest(c - lo, e);
      RisingPart(lo + Pow2(e), c, m, k);
    }
  }

  /** From a multiple of 2^m: full blocks, then one block for each one of the rest. */
  lemma {:induction false} CappedPart(c: nat, hi: nat, m: nat)
    requires c <= hi && Multiple(c, m)
    ensures |Greedy(c, hi, m)| == High(hi - c, m) + Ones(Low(hi - c, m))
    decreases hi - c
  {
    hide Multiple, Greedy, High, Low, Ones, Pow2;
    if hi - c < Pow2(m) {
      HighOfSmall(hi - c, m);
      FallingPart(c, hi, m, m);
    } else {
      LargestAtLeast(c, hi, m, m);
      FirstBlock(c, hi, m, m);
      NextIsAligned(c, m, m);
      HighStep(hi - c, m);
      CappedPart(c + Pow2(m), hi, m);
    }
  }

  // ---- the number of records --------------------------------------------------------------------------

  /** The largest exponent up to m of which [lo, hi] has a multiple. */
  function Pivot(lo: nat, hi: nat, m: nat): (k: nat)
    requires lo <= hi
    ensures k <= m && RoundUpTo(lo, k) <= hi
    ensures k < m ==> RoundUpTo(lo, k + 1) > hi
    decreases m
  {
    if m == 0 || RoundUpTo(lo, m) <= hi then m else Pivot(lo, hi, m - 1)
  }

  /** With c the multiple of the pivot: the ones up to c, the full blocks from c on, and the ones of the rest. */
  function Records(lo: nat, hi: nat, m: nat): nat {
    if lo >= hi then 0
    else
      var c := RoundUpTo(lo, Pivot(lo, hi, m));
      Ones(c - lo) + High(hi - c, m) + Ones(Low(hi - c, m))
  }

  /** Below the cap, less than 2^k values follow the pivot. */
  lemma ShortAfterPivot(lo: nat, hi: nat, k: nat, c: nat)
    requires c == RoundUpTo(lo, k) <= hi < RoundUpTo(lo, k + 1)
    ensures hi - c < Pow2(k)
  {
    hide Multiple, RoundUpTo;
    Halves(k + 1);
    if Multiple(c, k + 1) {
      NotBefore(lo, k + 1, c);
    } else {
      OddMultiple(c, k);
      NotBefore(lo, k + 1, c + Pow2(k));
    }
  }

  lemma NotBefore(s: nat, k: nat, x: nat)
    requires s <= x && Multiple(x, k)
    ensures RoundUpTo(s, k) <= x
  {
    hide Multiple, RoundUpTo;
    if x < RoundUpTo(s, k) { MultiplesApart(x, RoundUpTo(s, k), k); }
  }

  lemma CutAtPivot(lo: nat, hi: nat, m: nat, k: nat, c: nat)
    requires lo <= c <= hi && Multiple(c, k) && c - lo < Pow2(k) && k <= m
    ensures |Greedy(lo, hi, m)| == Ones(c - lo) + |Greedy(c, hi, m)|
  {
    hide Multiple, Greedy, Ones, Pow2;
    RisingPart(lo, c, m, k);
    if lo < c {
      ZeroIsMultiple(k);
      MultiplesApart(0, c, k);
      Pow2IsMultiple(k, k);
      DifferenceOfMultiples(Pow2(k), c, k);
      CutAtBlockEnd(c - Pow2(k), k, lo, hi, m);
    } else {
      NoOnes();
    }
  }

  lemma NoOnes()
    ensures Ones(0) == 0
  {
  }

  /** The number of blocks of a split, read off its two ends and the cap. */
  lemma RecordsAre(lo: nat, hi: nat, m: nat)
    ensures |Greedy(lo, hi, m)| == Records(lo, hi, m)
  {
    hide Multiple, Greedy, Ones, Pow2, High, Low, RoundUpTo, Pivot;
    if lo >= hi {
      NoBlocks(lo, hi, m);
    } else {
      var k := Pivot(lo, hi, m);
      var c := RoundUpTo(lo, k);
      CutAtPivot(lo, hi, m, k, c);
      if k < m {
        ShortAfterPivot(lo, hi, k, c);
        FallingPart(c, hi, m, k);
        Pow2Monotone(k, m);
        HighOfSmall(hi - c, m);
      } else {
        CappedPart(c, hi, m);
      }
    }
  }

  /** Any multiple of 2^k as close as the pivot gives the same number: no other choice of c matters. */
  lemma RecordsAround(lo: nat, hi: nat, m: nat, k: nat, c: nat)
    requires lo <= c <= hi && Multiple(c, k) && k <= m && c - lo < Pow2(k) && hi - c < Pow2(k)
    ensures Records(lo, hi, m) == Ones(c - lo) + Ones(hi - c)
  {
    hide Multiple, Greedy, Ones, Pow2, Records;
    RecordsAre(lo, hi, m);
    CutAtPivot(lo, hi, m, k, c);
    FallingPart(c, hi, m, k);
  }

  /** With a small cap the number has no bound: n full blocks need n records. */
  lemma FullBlocks(n: nat, m: nat)
    ensures Records(0, n * Pow2(m), m) == n
  {
    hide Greedy, Records, Multiple;
    RecordsAre(0, n * Pow2(m), m);
    ZeroIsMultiple(m);
    CappedPart(0, n * Pow2(m), m);
    HighOfProduct(n, m);
    NoOnes();
  }

  lemma {:induction false} HighOfProduct(n: nat, m: nat)
    ensures High(n * Pow2(m), m) == n && Low(n * Pow2(m), m) == 0
    decreases n
  {
    hide High, Low, Pow2;
    if n == 0 {
      HighOfSmall(0, m);
    } else {
      assert n * Pow2(m) == (n - 1) * Pow2(m) + Pow2(m);
      HighStep(n * Pow2(m), m);
      HighOfProduct(n - 1, m);
    }
  }

  // ---- when the records fit ---------------------------------------------------------------------------

  /** Pass number `pass`, which writes the record of that index, takes place as long as there are blocks. */
  lemma {:induction false} PassesAreRecords(s: nat, end: nat, m: nat, pass: nat)
    requires s < UINT32_LIMIT && end < UINT32_LIMIT - 1
    ensures RunningStart(s, end, m, pass) <= end <==> pass < |Greedy(s, end + 1, m)|
    decreases pass
  {
    hide Multiple, Pow2, Greedy;
    if s > end {
      NoBlocks(s, end + 1, m);
    } else {
      FirstBlock(s, end + 1, m, Largest(s, end + 1, m));
      if pass > 0 { PassesAreRecords(s + Pow2(Largest(s, end + 1, m)), end, m, pass - 1); }
    }
  }

  /** The loop makes a pass that writes behind a buffer of `places` records. */
  ghost predicate Overruns(start: nat, end: nat, m: nat, places: nat)
    requires start < UINT32_LIMIT && end < UINT32_LIMIT
  {
    exists pass :: pass >= places && RunningStart(start, end, m, pass) <= end
  }

  /** The split overruns the buffer if and only if it never ends or has more records than the buffer has places. */
  lemma OverrunsIff(start: nat, end: nat, m: nat, places: nat)
    requires start < UINT32_LIMIT && end < UINT32_LIMIT
    ensures Overruns(start, end, m, places) <==> end == UINT32_LIMIT - 1 || Records(start, end + 1, m) > places
  {
    hide Records, RunningStart;
    if end == UINT32_LIMIT - 1 {
      assert RunningStart(start, end, m, places) <= end;
    } else {
      RecordsAre(start, end + 1, m);
      forall pass: nat
        ensures RunningStart(start, end, m, pass) <= end <==> pass < Records(start, end + 1, m)
      {
        PassesAreRecords(start, end, m, pass);
      }
      if Records(start, end + 1, m) > places { assert RunningStart(start, end, m, places) <= end; }
    }
  }

  /** Two ranges that need more than 32 records: at the prefix 32, and at the prefix 16 from 33 * 2^16 values on. */
  lemma ThirtyTwoPlacesOverrun(m: nat, end: nat)
    requires (m == 32 && end == UINT32_LIMIT - 2) || (m == 16 && end == 33 * 0x1_0000 - 1)
    ensures Overruns(if m == 32 then 1 else 0, end, m, 32)
  {
    hide Records, Greedy;
    Pow2Literals();
    if m == 32 {
      MostBlocksReached(m);
      RecordsAre(1, end + 1, m);
      OverrunsIff(1, end, m, 32);
    } else {
      FullBlocks(33, m);
      OverrunsIff(0, end, m, 32);
    }
  }
}
