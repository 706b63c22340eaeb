/** Sorting and merging integer ranges in place. */
module RangeMerge {

  const INT_LIMIT: nat := 0x8000_0000

  datatype Range = Range(start: nat, end: nat)

  const EMPTY_SLOT := Range(0, 0)

  // ---- the tests of the program ---------------------------------------------------------------

  predicate Overlap(a: Range, b: Range) {
    !(a.end < b.start || a.start > b.end)
  }

  predicate Adjacent(a: Range, b: Range) {
    (a.start > b.end && a.start - b.end == 1) || (b.start > a.end && b.start - a.end == 1)
  }

  // ---- specification ------------------------------------------------------------------------

  ghost predicate WellFormed(rs: seq<Range>) {
    forall k :: 0 <= k < |rs| ==> rs[k].start <= rs[k].end < INT_LIMIT
  }

  ghost predicate In(x: nat, r: Range) { r.start <= x <= r.end }

  ghost predicate Covered(rs: seq<Range>, x: nat) {
    exists k :: 0 <= k < |rs| && In(x, rs[k])
  }

  ghost predicate SameCover(a: seq<Range>, b: seq<Range>) {
    forall x: nat :: Covered(a, x) <==> Covered(b, x)
  }

  ghost predicate SortedByStart(rs: seq<Range>) {
    forall j, k :: 0 <= j < k < |rs| ==> rs[j].start <= rs[k].start
  }

  /** Non-empty ranges in order, with at least one value missing between neighbours. */
  ghost predicate Canonical(rs: seq<Range>) {
    && WellFormed(rs)
    && forall j, k :: 0 <= j < k < |rs| ==> rs[j].end + 1 < rs[k].start
  }

  ghost predicate AllEmpty(rs: seq<Range>) {
    forall k :: 0 <= k < |rs| ==> rs[k] == EMPTY_SLOT
  }

  /** What range_sort_merge leaves in the array: `merged` canonical ranges, then empty slots. */
  ghost predicate IsMerge(input: seq<Range>, output: seq<Range>, merged: nat) {
    && merged <= |output| == |input|
    && Canonical(output[..merged]) && SameCover(input, output[..merged])
    && AllEmpty(output[merged..])
  }

  // ---- a canonical form is unique -----------------------------------------------------------

  /** The first range of a canonical form is fixed by what the form covers. */
  lemma FirstRangeAgrees(a: seq<Range>, b: seq<Range>)
    requires Canonical(a) && Canonical(b) && SameCover(a, b) && a != [] && b != []
    ensures a[0].start >= b[0].start && a[0].end <= b[0].end
  {
    assert In(a[0].start, a[0]);
    assert Covered(a, a[0].start);
    var k :| 0 <= k < |b| && In(a[0].start, b[k]);
    var x := b[0].end + 1;
    assert !Covered(b, x);
    assert !Covered(a, x);
    assert !In(x, a[0]);
    assert Covered(b, b[0].start) by { assert In(b[0].start, b[0]); }
    var j :| 0 <= j < |a| && In(b[0].start, a[j]);
  }

  lemma CoverOfTail(a: seq<Range>, x: nat)
    requires Canonical(a) && a != []
    ensures Covered(a[1..], x) <==> Covered(a, x) && x > a[0].end
  {
    if Covered(a, x) && x > a[0].end {
      var k :| 0 <= k < |a| && In(x, a[k]);
      assert In(x, a[1..][k - 1]);
    }
    if Covered(a[1..], x) {
      var k :| 0 <= k < |a[1..]| && In(x, a[1..][k]);
      assert In(x, a[k + 1]);
    }
  }

  lemma NothingCovered(a: seq<Range>)
    requires WellFormed(a) && SameCover(a, [])
    ensures a == []
  {
    if a != [] {
      assert In(a[0].start, a[0]);
      assert Covered(a, a[0].start);
    }
  }

  lemma {:induction false} CanonicalIsUnique(a: seq<Range>, b: seq<Range>)
    requires Canonical(a) && Canonical(b) && SameCover(a, b)
    ensures a == b
    decreases |a|
  {
    if a == [] {
      NothingCovered(b);
    } else if b == [] {
      NothingCovered(a);
    } else {
      FirstRangeAgrees(a, b);
      FirstRangeAgrees(b, a);
      forall x: nat ensures Covered(a[1..], x) <==> Covered(b[1..], x) {
        CoverOfTail(a, x);
        CoverOfTail(b, x);
      }
      CanonicalIsUnique(a[1..], b[1..]);
      assert a == [a[0]] + a[1..] && b == [b[0]] + b[1..];
    }
  }

  /** Two arrays of equal length that cover the same integers are merged to the same array. */
  lemma MergeDependsOnCoverOnly(in1: seq<Range>, out1: seq<Range>, m1: nat, in2: seq<Range>, out2: seq<Range>, m2: nat)
    requires IsMerge(in1, out1, m1) && IsMerge(in2, out2, m2)
    requires |in1| == |in2| && SameCover(in1, in2)
    ensures out1 == out2 && m1 == m2
  {
    assert SameCover(out1[..m1], out2[..m2]) by {
      forall x: nat ensures Covered(out1[..m1], x) <==> Covered(out2[..m2], x) {
        assert Covered(in1, x) <==> Covered(in2, x);
      }
    }
    CanonicalIsUnique(out1[..m1], out2[..m2]);
    assert out1 == out1[..m1] + out1[m1..] && out2 == out2[..m2] + out2[m2..];
  }

  // ---- one merge step -----------------------------------------------------------------------

  function Min(a: nat, b: nat): nat { if a < b then a else b }
  function Max(a: nat, b: nat): nat { if a > b then a else b }

  /** The smallest range that contains both. */
  function Hull(a: Range, b: Range): Range { Range(Min(a.start, b.start), Max(a.end, b.end)) }

  /** Two ranges overlap when they share a value, and overlap or touch when their hull adds no value. */
  lemma TestsMean(a: Range, b: Range)
    requires a.start <= a.end && b.start <= b.end
    ensures Overlap(a, b) <==> exists x: nat :: In(x, a) && In(x, b)
    ensures Overlap(a, b) || Adjacent(a, b) <==> forall x: nat :: In(x, Hull(a, b)) ==> In(x, a) || In(x, b)
  {
    if Overlap(a, b) { assert In(Max(a.start, b.start), a) && In(Max(a.start, b.start), b); }
    if !Overlap(a, b) && !Adjacent(a, b) {
      var gap := Min(a.end, b.end) + 1;
      assert In(gap, Hull(a, b)) && !In(gap, a) && !In(gap, b);
    }
  }

  lemma CoveredPlus(rs: seq<Range>, r: Range, x: nat)
    ensures Covered(rs + [r], x) <==> Covered(rs, x) || In(x, r)
  {
    var all := rs + [r];
    if Covered(rs, x) {
      var k :| 0 <= k < |rs| && In(x, rs[k]);
      assert In(x, all[k]);
    }
    if In(x, r) { assert In(x, all[|rs|]); }
    if Covered(all, x) {
      var k :| 0 <= k < |all| && In(x, all[k]);
      if k < |rs| { assert In(x, rs[k]); }
    }
  }

  lemma AppendKeepsCanonical(acc: seq<Range>, r: Range)
    requires Canonical(acc) && r.start <= r.end < INT_LIMIT
    requires acc != [] ==> acc[|acc| - 1].start <= r.start
    requires acc != [] ==> !Overlap(r, acc[|acc| - 1]) && !Adjacent(r, acc[|acc| - 1])
    ensures Canonical(acc + [r])
    ensures forall x: nat :: Covered(acc + [r], x) <==> Covered(acc, x) || In(x, r)
  {
    forall x: nat ensures Covered(acc + [r], x) <==> Covered(acc, x) || In(x, r) { CoveredPlus(acc, r, x); }
  }

  lemma WidenKeepsCanonical(acc: seq<Range>, r: Range, wide: Range)
    requires acc != [] && Canonical(acc) && r.start <= r.end < INT_LIMIT
    requires acc[|acc| - 1].start <= r.start
    requires Overlap(r, acc[|acc| - 1]) || Adjacent(r, acc[|acc| - 1])
    requires wide == Hull(acc[|acc| - 1], r)
    ensures Canonical(acc[|acc| - 1 := wide]) && wide.start <= r.start
    ensures forall x: nat :: Covered(acc[|acc| - 1 := wide], x) <==> Covered(acc, x) || In(x, r)
  {
    var j := |acc| - 1;
    var init := acc[..j];
    forall x: nat ensures Covered(acc[j := wide], x) <==> Covered(acc, x) || In(x, r) {
      assert acc[j := wide] == init + [wide] && acc == init + [acc[j]];
      CoveredPlus(init, wide, x);
      CoveredPlus(init, acc[j], x);
    }
  }

  // ---- the program ------------------------------------------------------------------------

  /** The index of the smallest start from `i` on. */
  method MinIndex(range: array<Range>, i: nat, cnt: nat) returns (minIndex: nat)
    requires i < cnt <= range.Length
    ensures i <= minIndex < cnt
    ensures forall k :: i <= k < cnt ==> range[minIndex].start <= range[k].start
  {
    minIndex := i;
    for j := i + 1 to cnt
      invariant i <= minIndex < cnt
      invariant forall k :: i <= k < j ==> range[minIndex].start <= range[k].start
    {
      if range[j].start < range[minIndex].start { minIndex := j; }
    }
  }

  /** The first `i` ranges are in place: sorted, and no later start is smaller. */
  ghost predicate SortedUpTo(rs: seq<Range>, i: nat) {
    forall j, k :: 0 <= j < i && j < k < |rs| ==> rs[j].start <= rs[k].start
  }

  lemma SwapSmallest(rs: seq<Range>, i: nat, m: nat, rs': seq<Range>)
    requires i <= m < |rs| && SortedUpTo(rs, i)
    requires forall k :: i <= k < |rs| ==> rs[m].start <= rs[k].start
    requires rs' == rs[i := rs[m]][m := rs[i]]
    ensures SortedUpTo(rs', i + 1) && multiset(rs') == multiset(rs)
  {
  }

  /** The selection sort by start. */
  method SortByStart(range: array<Range>, cnt: nat)
    requires cnt <= range.Length
    modifies range
    ensures SortedByStart(range[..cnt])
    ensures multiset(range[..cnt]) == multiset(old(range[..cnt]))
    ensures range[cnt..] == old(range[cnt..])
  {
    var i := 0;
    while i + 1 < cnt
      invariant 0 <= i <= cnt
      invariant SortedUpTo(range[..cnt], i)
      invariant multiset(range[..cnt]) == multiset(old(range[..cnt]))
      invariant range[cnt..] == old(range[cnt..])
    {
      ghost var before := range[..cnt];
      var minIndex := MinIndex(range, i, cnt);
      SwapSmallest(before, i, minIndex, before[i := before[minIndex]][minIndex := before[i]]);
      if minIndex != i {
        range[i], range[minIndex] := range[minIndex], range[i];
      }
      assert range[..cnt] == before[i := before[minIndex]][minIndex := before[i]];
      i := i + 1;
    }
  }

  lemma {:induction false} PermutationCovers(a: seq<Range>, b: seq<Range>)
    requires multiset(a) == multiset(b)
    ensures SameCover(a, b) && (WellFormed(a) ==> WellFormed(b))
  {
    forall x: nat ensures Covered(a, x) <==> Covered(b, x) {
      if Covered(a, x) { var k :| 0 <= k < |a| && In(x, a[k]); MemberByMultiset(a, b, k); }
      if Covered(b, x) { var k :| 0 <= k < |b| && In(x, b[k]); MemberByMultiset(b, a, k); }
    }
    if WellFormed(a) {
      forall k | 0 <= k < |b| ensures b[k].start <= b[k].end < INT_LIMIT { MemberByMultiset(b, a, k); }
    }
  }

  lemma MemberByMultiset(a: seq<Range>, b: seq<Range>, k: nat)
    requires k < |a| && multiset(a) == multiset(b)
    ensures exists j :: 0 <= j < |b| && b[j] == a[k]
  {
    assert a[k] in multiset(a);
    assert a[k] in multiset(b);
    assert a[k] in b;
  }

  /** One pass of the merge loop, as a function of the merged ranges so far. */
  function MergeInto(acc: seq<Range>, r: Range): (acc': seq<Range>)
    requires acc != []
  {
    var j := |acc| - 1;
    if r.start == 0 && r.end == 0 then acc
    else if Overlap(r, acc[j]) || Adjacent(r, acc[j]) then
      acc[j := Hull(acc[j], r)]
    else acc + [r]
  }

  /** After `i` input ranges: a canonical form of what they cover. */
  ghost predicate MergedSoFar(input: seq<Range>, i: nat, acc: seq<Range>) {
    && 1 <= |acc| <= i <= |input|
    && Canonical(acc) && acc[|acc| - 1].start <= input[i - 1].start
    && SameCover(input[..i], acc)
  }

  lemma MergeIntoKeeps(input: seq<Range>, i: nat, acc: seq<Range>)
    requires i < |input| && WellFormed(input) && SortedByStart(input) && MergedSoFar(input, i, acc)
    ensures MergedSoFar(input, i + 1, MergeInto(acc, input[i]))
  {
    var r, j := input[i], |acc| - 1;
    assert input[..i + 1] == input[..i] + [r];
    assert acc[j].start <= r.start;
    if r.start == 0 && r.end == 0 {
      SkippingIsHarmless(input, i, acc);
    } else if Overlap(r, acc[j]) || Adjacent(r, acc[j]) {
      WidenKeepsCanonical(acc, r, Hull(acc[j], r));
      CoverGrows(input[..i], acc, r, MergeInto(acc, r));
    } else {
      AppendKeepsCanonical(acc, r);
      CoverGrows(input[..i], acc, r, acc + [r]);
    }
  }

  /** The body of the merge loop: skip, widen the last merged range, or append. */
  method MergeOne(tmp: array<Range>, j: nat, r: Range) returns (j': nat)
    requires j + 1 < tmp.Length && AllEmpty(tmp[j + 1..])
    modifies tmp
    ensures j <= j' <= j + 1
    ensures tmp[..j' + 1] == MergeInto(old(tmp[..j + 1]), r)
    ensures AllEmpty(tmp[j' + 1..])
  {
    j' := j;
    if r.start == 0 && r.end == 0 {
      return;
    } else if Overlap(r, tmp[j]) || Adjacent(r, tmp[j]) {
      tmp[j] := Range(Min(tmp[j].start, r.start), Max(tmp[j].end, r.end));
    } else {
      j' := j + 1;
      tmp[j'] := r;
    }
    assert tmp[..j' + 1] == MergeInto(old(tmp[..j + 1]), r);
  }

  /** The merge loop over ranges sorted by start; `tmp` receives the result. */
  method MergeSorted(range: array<Range>, cnt: nat, tmp: array<Range>) returns (ghost merged: nat)
    requires 1 <= cnt == tmp.Length <= range.Length && tmp != range
    requires WellFormed(range[..cnt]) && SortedByStart(range[..cnt]) && AllEmpty(tmp[..])
    modifies tmp
    ensures 1 <= merged && IsMerge(range[..cnt], tmp[..], merged)
  {
    ghost var input := range[..cnt];
    tmp[0] := range[0];
    var j := 0;
    assert tmp[..1] == input[..1];
    for i := 1 to cnt
      invariant 0 <= j < i && range[..cnt] == input
      invariant MergedSoFar(input, i, tmp[..j + 1])
      invariant AllEmpty(tmp[j + 1..])
    {
      MergeIntoKeeps(input, i, tmp[..j + 1]);
      j := MergeOne(tmp, j, range[i]);
    }
    merged := j + 1;
    assert input[..cnt] == input;
  }

  lemma CoverGrows(done: seq<Range>, acc: seq<Range>, r: Range, acc': seq<Range>)
    requires SameCover(done, acc)
    requires forall x: nat :: Covered(acc', x) <==> Covered(acc, x) || In(x, r)
    ensures SameCover(done + [r], acc')
  {
    forall x: nat ensures Covered(done + [r], x) <==> Covered(acc', x) { CoveredPlus(done, r, x); }
  }

  /** An empty slot that is skipped stands after a range that starts at 0, so 0 is covered anyway. */
  lemma SkippingIsHarmless(input: seq<Range>, i: nat, acc: seq<Range>)
    requires 1 <= i < |input| && SortedByStart(input) && WellFormed(input)
    requires input[i] == EMPTY_SLOT && SameCover(input[..i], acc)
    ensures SameCover(input[..i + 1], acc)
  {
    assert In(0, input[..i][0]);
    assert Covered(input[..i], 0);
    assert input[..i + 1] == input[..i] + [input[i]];
    forall x: nat ensures Covered(input[..i + 1], x) <==> Covered(acc, x) {
      CoveredPlus(input[..i], input[i], x);
    }
  }

  /** range_sort_merge. The returned count leaves out a merged range that starts at 0. */
  method SortMerge(range: array<Range>, cnt: nat) returns (mergeCnt: nat, ghost merged: nat)
    requires 1 <= cnt <= range.Length && WellFormed(range[..cnt])
    modifies range
    ensures 1 <= merged && IsMerge(old(range[..cnt]), range[..cnt], merged)
    ensures forall k :: merged <= k < cnt ==> range[k] == Range(0, 0)
    ensures mergeCnt == merged - (if Covered(old(range[..cnt]), 0) then 1 else 0)
    ensures range[cnt..] == old(range[cnt..])
  {
    ghost var input := range[..cnt];
    SortByStart(range, cnt);
    ghost var sorted := range[..cnt];
    PermutationCovers(input, sorted);
    var tmp := new Range[cnt](_ => EMPTY_SLOT);
    merged := MergeSorted(range, cnt, tmp);
    ghost var output := tmp[..];
    assert range[..cnt] == sorted;
    MergeOfPermutation(input, sorted, output, merged);
    forall k | 0 <= k < cnt { range[k] := tmp[k]; }
    assert range[..cnt] == output;
    forall k | merged <= k < cnt ensures range[k] == Range(0, 0) { assert range[k] == output[merged..][k - merged]; }
    mergeCnt := CountNonEmpty(range, cnt, merged);
  }

  lemma MergeOfPermutation(input: seq<Range>, sorted: seq<Range>, output: seq<Range>, merged: nat)
    requires |input| == |sorted| && SameCover(input, sorted) && 1 <= merged && IsMerge(sorted, output, merged)
    ensures IsMerge(input, output, merged)
    ensures Covered(input, 0) <==> output[0].start == 0
  {
    forall x: nat ensures Covered(input, x) <==> Covered(output[..merged], x) {
      assert Covered(input, x) <==> Covered(sorted, x);
    }
    CoversZero(output, merged);
  }

  lemma CoversZero(output: seq<Range>, merged: nat)
    requires 1 <= merged <= |output| && Canonical(output[..merged])
    ensures Covered(output[..merged], 0) <==> output[0].start == 0
  {
    var c := output[..merged];
    if output[0].start == 0 { assert In(0, c[0]); }
  }

  /** The final loop counts the slots whose two fields are both non-zero. */
  method CountNonEmpty(range: array<Range>, cnt: nat, ghost merged: nat) returns (n: nat)
    requires 1 <= merged <= cnt <= range.Length
    requires Canonical(range[..cnt][..merged]) && AllEmpty(range[..cnt][merged..])
    ensures n == merged - (if range[0].start == 0 then 1 else 0)
  {
    n := 0;
    ghost var c, e := range[..cnt][..merged], range[..cnt][merged..];
    for i := 0 to cnt
      invariant i <= merged ==> n == i - (if i > 0 && range[0].start == 0 then 1 else 0)
      invariant i > merged ==> n == merged - (if range[0].start == 0 then 1 else 0)
    {
      if i < merged { assert range[i] == c[i]; assert range[0] == c[0]; } else { assert range[i] == e[i - merged]; }
      if range[i].start != 0 && range[i].end != 0 { n := n + 1; }
    }
  }

  /** The count is right exactly when no input range starts at 0. */
  lemma CountRightIff(input: seq<Range>)
    requires WellFormed(input)
    ensures Covered(input, 0) <==> exists k :: 0 <= k < |input| && input[k].start == 0
  {
    if k :| 0 <= k < |input| && input[k].start == 0 { assert In(0, input[k]); }
    if Covered(input, 0) { var k :| 0 <= k < |input| && In(0, input[k]); assert input[k].start == 0; }
  }
}
