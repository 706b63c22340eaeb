/** Splitting an integer range into aligned power-of-two blocks (CIDR notation, section 3.1 of RFC 4632). */
module RangeToCidr {
  import opened Bits

  const UINT32_LIMIT: nat := 0x1_0000_0000

  /** mask_map, the table the program masks addresses with; unlisted entries of the C array are zero. */
  function MaskMap(j: nat): nat
    requires j < 32
  {
    match j
    case 0 => 0xffffffff
    case 1 => 0xfffffffe
    case 2 => 0xfffffffc
    case 3 => 0xfffffff8
    case 4 => 0xfffffff0
    case 5 => 0xffffffe0
    case 6 => 0xffffffc0
    case 7 => 0xffffff80
    case 8 => 0xffffff00
    case 9 => 0xfffffe00
    case 10 => 0xfffff800
    case 11 => 0xfffff000
    case 12 => 0xffffe000
    case 13 => 0xffff8000
    case 14 => 0xffff0000
    case 15 => 0xfffe0000
    case 16 => 0xfff80000
    case 17 => 0xfff00000
    case 18 => 0xffe00000
    case 19 => 0xff800000
    case 20 => 0xff000000
    case 21 => 0xfe000000
    case 22 => 0xf8000000
    case 23 => 0xf0000000
    case 24 => 0xe0000000
    case 25 => 0x80000000
    case _ => 0
  }

  /** How many low bits each entry of mask_map clears. */
  function Cleared(j: nat): nat
    requires j < 32
  {
    match j
    case 0 => 0
    case 1 => 1
    case 2 => 2
    case 3 => 3
    case 4 => 4
    case 5 => 5
    case 6 => 6
    case 7 => 7
    case 8 => 8
    case 9 => 9
    case 10 => 11
    case 11 => 12
    case 12 => 13
    case 13 => 15
    case 14 => 16
    case 15 => 17
    case 16 => 19
    case 17 => 20
    case 18 => 21
    case 19 => 23
    case 20 => 24
    case 21 => 25
    case 22 => 27
    case 23 => 28
    case 24 => 29
    case 25 => 31
    case _ => 32
  }

  /** An output record. */
  datatype Cidr = Cidr(addr: nat, prefix: nat)

  /** The block of 2^exp values that begins at `start`. */
  datatype Block = Block(start: nat, exp: nat) {
    function Stop(): nat { start + Pow2(exp) }
    predicate Aligned() { Multiple(start, exp) }
  }

  // ---- the split as a function -----------------------------------------------------------

  /** Whether an aligned block of 2^k values starts at `s` and ends before `hi`. */
  predicate Fits(s: nat, hi: nat, k: nat) {
    Multiple(s, k) && s + Pow2(k) <= hi
  }

  predicate NoneAbove(s: nat, hi: nat, e: nat, k: nat) {
    forall j :: e < j <= k ==> !Fits(s, hi, j)
  }

  /** The largest exponent up to `k` that fits at `s`. */
  function Largest(s: nat, hi: nat, k: nat): (e: nat)
    requires s < hi
    ensures e <= k && Fits(s, hi, e)
    ensures NoneAbove(s, hi, e, k)
  {
    if k == 0 then assert Pow2(0) == 1; 0
    else if Fits(s, hi, k) then k
    else Largest(s, hi, k - 1)
  }

  /** The blocks the greedy split of [lo, hi) emits, in order. */
  function Greedy(lo: nat, hi: nat, m: nat): (bs: seq<Block>)
    decreases hi - lo
  {
    if lo >= hi then []
    else
      var e := Largest(lo, hi, m);
      [Block(lo, e)] + Greedy(lo + Pow2(e), hi, m)
  }

  /** What the program writes for a block. */
  function Stored(b: Block, m: nat): (c: Cidr)
    requires b.exp <= m && b.exp < 32
  {
    Cidr(And(b.start, MaskMap(b.exp)), m - b.exp)
  }

  // ---- the program ------------------------------------------------------------------------

  /** The number of trailing zero bits of `s`, at most `m`. */
  method TrailingZeros(s: nat, m: nat) returns (i: nat)
    ensures i <= m && Multiple(s, i)
    ensures forall k :: i < k <= m ==> !Multiple(s, k)
  {
    i := 0;
    while i < m
      invariant i <= m
      invariant forall k :: 0 <= k < i ==> !Bit(s, k)
    {
      AndPow2(s, i);
      if And(s, Pow2(i)) != 0 { break; }
      i := i + 1;
    }
    LowBitsZero(s, i);
    forall k | i < k <= m ensures !Multiple(s, k) {
      AndPow2(s, i);
      LowBitsZero(s, k);
    }
  }

  /** An aligned block that starts below 2^n ends at most at 2^n. */
  lemma BlockEndStaysInWord(s: nat, j: nat, n: nat)
    requires j <= n && Multiple(s, j) && s < Pow2(n)
    ensures s + Pow2(j) <= Pow2(n)
  {
    Pow2IsMultiple(j, n);
    MultiplesApart(s, Pow2(n), j);
  }

  lemma LargestIs(s: nat, hi: nat, m: nat, e: nat)
    requires s < hi && e <= m && Fits(s, hi, e) && NoneAbove(s, hi, e, m)
    ensures Largest(s, hi, m) == e
  {
  }

  lemma UnalignedNeverFits(s: nat, hi: nat, i: nat, m: nat)
    requires forall k :: i < k <= m ==> !Multiple(s, k)
    ensures NoneAbove(s, hi, i, m)
  {
  }

  /** No block of a range below 2^32 - 1 has 2^32 values, so the mask table is not overrun. */
  lemma ExponentBelow32(s: nat, hi: nat, e: nat)
    requires hi < UINT32_LIMIT && s + Pow2(e) <= hi
    ensures e < 32
  {
    if e >= 32 { Pow2Monotone(32, e); Pow2Literals(); }
  }

  /** The inner loop: from the alignment `i` of `s` down to the longest block that ends by `end`. */
  method LongestBlock(s: nat, end: nat, i: nat, maxPrefix: nat) returns (j: nat)
    requires s <= end < UINT32_LIMIT - 1 && i <= maxPrefix <= 32 && Multiple(s, i)
    requires NoneAbove(s, end + 1, i, maxPrefix)
    ensures j == Largest(s, end + 1, maxPrefix) && j < 32
    ensures s + Pow2(j) - 1 < UINT32_LIMIT
  {
    j := i;
    BlockBounds(s, i, j);
    while s + Pow2(j) - 1 > end
      invariant j <= i && s + Pow2(j) - 1 < UINT32_LIMIT
      invariant j == 0 ==> Pow2(j) == 1
      invariant NoneAbove(s, end + 1, j, maxPrefix)
    {
      j := j - 1;
      BlockBounds(s, i, j);
    }
    MultipleOfSmaller(s, j, i);
    LargestIs(s, end + 1, maxPrefix, j);
    ExponentBelow32(s, end + 1, j);
  }

  lemma BlockBounds(s: nat, i: nat, j: nat)
    requires j <= i <= 32 && s < UINT32_LIMIT && Multiple(s, i)
    ensures s + Pow2(j) - 1 < UINT32_LIMIT && (j == 0 ==> Pow2(j) == 1)
  {
    Pow2Literals();
    MultipleOfSmaller(s, j, i);
    BlockEndStaysInWord(s, j, 32);
  }

  /** One pass of the outer loop: the record written and the value `s` moves to. */
  method EmitOne(s: nat, end: nat, maxPrefix: nat) returns (c: Cidr, next: nat)
    requires s <= end < UINT32_LIMIT - 1 && maxPrefix <= 32
    ensures IsStored(c, Block(s, Largest(s, end + 1, maxPrefix)), maxPrefix)
    ensures s < next == s + Pow2(Largest(s, end + 1, maxPrefix)) <= end + 1
  {
    var i := TrailingZeros(s, maxPrefix);
    if i == 0 {
      FirstIsSingle(s, end + 1, maxPrefix);
      c, next := Cidr(s, maxPrefix), s + 1;
    } else {
      UnalignedNeverFits(s, end + 1, i, maxPrefix);
      var j := LongestBlock(s, end, i, maxPrefix);
      c, next := Cidr(And(s, MaskMap(j)), maxPrefix - j), s + Pow2(j);
    }
  }

  /**
   * range2cidr. The program does not look at the length of its buffer: where it would write behind the end, the model
   * stops and reports the overrun (CidrCount.OverrunsIff says when that is).
   */
  method Split(cidr: array<Cidr>, start: nat, end: nat, maxPrefix: nat) returns (idx: nat, overrun: bool)
    requires start < UINT32_LIMIT && end < UINT32_LIMIT - 1 && maxPrefix <= 32
    modifies cidr
    ensures overrun <==> |Greedy(start, end + 1, maxPrefix)| > cidr.Length
    ensures idx == if overrun then cidr.Length else |Greedy(start, end + 1, maxPrefix)|
    ensures forall k :: 0 <= k < idx ==>
      var b := Greedy(start, end + 1, maxPrefix)[k];
      IsStored(cidr[k], b, maxPrefix) && cidr[k].prefix + b.exp == maxPrefix
    ensures forall k :: idx <= k < cidr.Length ==> cidr[k] == Cidr(0, 0)
  {
    hide Greedy, IsStored, Largest;
    ghost var whole := Greedy(start, end + 1, maxPrefix);
    forall k | 0 <= k < cidr.Length { cidr[k] := Cidr(0, 0); }
    idx, overrun := 0, false;
    var s := start;
    assert whole[0..] == whole;
    while s <= end
      invariant s < UINT32_LIMIT && idx <= |whole| && idx <= cidr.Length
      invariant Greedy(s, end + 1, maxPrefix) == whole[idx..]
      invariant forall k :: 0 <= k < idx ==> IsStored(cidr[k], whole[k], maxPrefix)
      invariant forall k :: idx <= k < cidr.Length ==> cidr[k] == Cidr(0, 0)
      decreases end + 1 - s
    {
      NextBlock(s, end + 1, maxPrefix, whole, idx);
      if idx == cidr.Length {
        forall k | 0 <= k < idx ensures cidr[k].prefix + whole[k].exp == maxPrefix {
          PrefixIs(cidr[k], whole[k], maxPrefix);
        }
        return idx, true;
      }
      var c, next := EmitOne(s, end, maxPrefix);
      cidr[idx] := c;
      idx := idx + 1;
      s := next;
    }
    NoBlocks(s, end + 1, maxPrefix);
    forall k | 0 <= k < idx ensures cidr[k].prefix + whole[k].exp == maxPrefix {
      PrefixIs(cidr[k], whole[k], maxPrefix);
    }
  }

  lemma PrefixIs(c: Cidr, b: Block, m: nat)
    requires IsStored(c, b, m)
    ensures c.prefix + b.exp == m
  {
    hide MaskMap, And;
  }

  lemma NoBlocks(lo: nat, hi: nat, m: nat)
    requires lo >= hi
    ensures Greedy(lo, hi, m) == []
  {
  }

  predicate IsStored(c: Cidr, b: Block, m: nat) {
    b.exp <= m && b.exp < 32 && c == Stored(b, m)
  }

  /** One pass of the outer loop emits one block and leaves the split of the rest. */
  lemma NextBlock(s: nat, hi: nat, m: nat, whole: seq<Block>, idx: nat)
    requires s < hi && idx <= |whole| && Greedy(s, hi, m) == whole[idx..]
    ensures idx < |whole| && whole[idx] == Block(s, Largest(s, hi, m))
    ensures Greedy(s + Pow2(Largest(s, hi, m)), hi, m) == whole[idx + 1..]
  {
    var rest := Greedy(s + Pow2(Largest(s, hi, m)), hi, m);
    assert whole[idx..] == [Block(s, Largest(s, hi, m))] + rest;
    assert whole[idx] == whole[idx..][0];
    assert whole[idx + 1..] == whole[idx..][1..] == rest;
  }

  /** An odd start (or a zero prefix) gives a block of one value, stored unmasked. */
  lemma FirstIsSingle(s: nat, hi: nat, m: nat)
    requires s < hi && s < UINT32_LIMIT
    requires forall k :: 0 < k <= m ==> !Multiple(s, k)
    ensures Largest(s, hi, m) == 0 && Pow2(0) == 1 && IsStored(Cidr(s, m), Block(s, 0), m)
  {
    Pow2Literals();
    UnalignedNeverFits(s, hi, 0, m);
    LargestIs(s, hi, m, 0);
    MaskMeaning(0);
    HighMask(s, 0, 32, MaskMap(0));
  }

  lemma LowMasks(j: nat)
    requires j < 14
    ensures Cleared(j) <= 32 && MaskMap(j) == UINT32_LIMIT - Pow2(Cleared(j))
  {
    Pow2Literals();
  }

  lemma HighMasks(j: nat)
    requires 14 <= j < 32
    ensures Cleared(j) <= 32 && MaskMap(j) == UINT32_LIMIT - Pow2(Cleared(j))
  {
    Pow2Literals();
  }

  /** The law of the table: up to 9 it is right; from 10 on every fourth mask is left out; from 26 on there is none. */
  lemma MaskLaw(j: nat)
    requires j < 32
    ensures j <= 9 ==> MaskMap(j) == 0x1_0000_0000 - Pow2(j)
    ensures 10 <= j <= 25 ==> MaskMap(j) == 0x1_0000_0000 - Pow2(j + 1 + (j - 10) / 3)
    ensures 26 <= j ==> MaskMap(j) == 0
    ensures Cleared(j) == if j <= 9 then j else if j <= 25 then j + 1 + (j - 10) / 3 else 32
  {
    assert Cleared(j) == if j <= 9 then j else if j <= 25 then j + 1 + (j - 10) / 3 else 32;
    Pow2Literals();
    hide MaskMap, Cleared, Pow2;
    MaskMeaning(j);
  }

  /** Every mask is a run of ones above Cleared(j) zeros; Cleared(j) exceeds j from 10 on. */
  lemma MaskMeaning(j: nat)
    requires j < 32
    ensures Cleared(j) <= 32 && MaskMap(j) == UINT32_LIMIT - Pow2(Cleared(j))
    ensures j <= 9 ==> Cleared(j) == j
    ensures j >= 10 ==> Cleared(j) > j
  {
    if j < 14 { LowMasks(j); } else { HighMasks(j); }
  }
}
