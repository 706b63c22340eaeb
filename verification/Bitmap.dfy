/** A bitmap in a byte array, and the set of bit numbers it stands for. */
module Bitmap {
  import opened Bits

  type byte = x: int | 0 <= x < 256

  /** sizeof(bitmap_t): the length field in front of the bytes. */
  const BITMAP_HEAD_LEN: nat := 4

  function BitnumToLen(bitnum: nat): nat { BITMAP_HEAD_LEN + bitnum / 8 + 1 }

  function LenToBitnum(mapLen: nat): nat
    requires mapLen >= BITMAP_HEAD_LEN
  {
    (mapLen - BITMAP_HEAD_LEN) * 8
  }

  class Bitmap {
    var len: nat
    const data: array<byte>

    ghost predicate Valid()
      reads this
    {
      len == BITMAP_HEAD_LEN + data.Length
    }

    ghost function Capacity(): nat { 8 * data.Length }

    ghost predicate Has(b: nat)
      requires b < Capacity()
      reads data
    {
      Bit(data[b / 8], b % 8)
    }

    /** The bit numbers that are set. */
    ghost function Members(): (s: set<nat>)
      reads data
    {
      set b: nat | b < Capacity() && Has(b)
    }

    /** bitmap_new: room for bit `bitnum` and the rest of its byte, nothing set. */
    constructor (bitnum: nat)
      ensures Valid() && fresh(data) && Members() == {}
      ensures Capacity() == 8 * (bitnum / 8 + 1) && bitnum < Capacity() && len == 4 + bitnum / 8 + 1
    {
      len := BitnumToLen(bitnum);
      data := new byte[bitnum / 8 + 1](_ => 0);
      new;
      forall b: nat | b < Capacity() ensures !Has(b) { ZeroHasNoBits(b % 8); }
    }
  }

  /** The length test accepts exactly the bits below the capacity. */
  lemma LengthGuard(bitnum: nat, bytes: nat)
    ensures BitnumToLen(bitnum) <= BITMAP_HEAD_LEN + bytes <==> bitnum < 8 * bytes
  {
  }

  lemma SetBit(x: byte, k: nat)
    requires k < 8
    ensures Or(x, Pow2(k)) < 256
    ensures forall j :: 0 <= j < 8 ==> (Bit(Or(x, Pow2(k)), j) <==> Bit(x, j) || j == k)
  {
    hide Bit, Or;
    forall j: nat ensures Bit(Or(x, Pow2(k)), j) <==> Bit(x, j) || j == k {
      OrBit(x, Pow2(k), j);
      Pow2Bit(k, j);
    }
    NoHighBits(x, 8);
    Pow2Literals();
    forall j: nat | j >= 8 ensures !Bit(Or(x, Pow2(k)), j) {}
    SmallIfNoHighBits(Or(x, Pow2(k)), 8);
  }

  /** Clearing with the complement mask of one bit. */
  lemma ClearBit(x: byte, k: nat, mask: nat)
    requires k < 8 && Pow2(k) + mask == 255
    ensures And(x, mask) < 256
    ensures forall j :: 0 <= j < 8 ==> (Bit(And(x, mask), j) <==> Bit(x, j) && j != k)
  {
    hide Bit, And;
    Pow2Literals();
    Pow2Monotone(k, 7);
    forall j | 0 <= j < 8 ensures Bit(And(x, mask), j) <==> Bit(x, j) && j != k {
      AndBit(x, mask, j);
      ComplementBit(8, Pow2(k), j);
      Pow2Bit(k, j);
    }
  }

  lemma {:induction false} NoHighBits(x: nat, n: nat)
    requires x < Pow2(n)
    ensures forall j: nat :: j >= n ==> !Bit(x, j)
  {
    if n == 0 {
      forall j: nat ensures !Bit(x, j) { ZeroHasNoBits(j); }
    } else {
      NoHighBits(x / 2, n - 1);
      forall j: nat | j >= n ensures !Bit(x, j) { assert Bit(x, j) == Bit(x / 2, j - 1); }
    }
  }

  lemma {:induction false} SmallIfNoHighBits(x: nat, n: nat)
    requires forall j: nat :: j >= n ==> !Bit(x, j)
    ensures x < Pow2(n)
    decreases n
  {
    if n == 0 {
      forall k: nat ensures Bit(x, k) == Bit(0, k) { ZeroHasNoBits(k); }
      BitsDetermine(x, 0);
    } else {
      forall j: nat | j >= n - 1 ensures !Bit(x / 2, j) { assert Bit(x, j + 1) == Bit(x / 2, j); }
      SmallIfNoHighBits(x / 2, n - 1);
    }
  }

  // ---- the operations on a map that may be NULL -----------------------------------------------

  /** bitmap_set; the bit is bit bitnum % 8 of byte bitnum / 8. */
  method Set(map_: Bitmap?, bitnum: nat) returns (r: int)
    requires map_ != null ==> map_.Valid()
    modifies if map_ == null then {} else {map_.data}
    ensures map_ == null ==> r == -1
    ensures map_ != null ==>
      && map_.Valid() && r == (if bitnum < map_.Capacity() then 0 else -1)
      && map_.Members() == old(map_.Members()) + (if r == 0 then {bitnum} else {})
      && (r == 0 ==> map_.data[bitnum / 8] == Or(old(map_.data[bitnum / 8]), Pow2(bitnum % 8)))
  {
    if map_ == null { return -1; }
    LengthGuard(bitnum, map_.data.Length);
    if BitnumToLen(bitnum) > map_.len { return -1; }
    var i, offset := bitnum / 8, bitnum % 8;
    SetBit(map_.data[i], offset);
    hide Bit, Or;
    map_.data[i] := Or(map_.data[i], Pow2(offset));
    forall b: nat | b < map_.Capacity() ensures map_.Has(b) <==> old(map_.Has(b)) || b == bitnum {
      SamePlace(b, bitnum);
    }
    r := 0;
  }

  /** bitmap_clr */
  method Clear(map_: Bitmap?, bitnum: nat) returns (r: int)
    requires map_ != null ==> map_.Valid()
    modifies if map_ == null then {} else {map_.data}
    ensures map_ == null ==> r == -1
    ensures map_ != null ==>
      && map_.Valid() && r == (if bitnum < map_.Capacity() then 0 else -1)
      && map_.Members() == old(map_.Members()) - {bitnum}
  {
    if map_ == null { return -1; }
    LengthGuard(bitnum, map_.data.Length);
    if BitnumToLen(bitnum) > map_.len { return -1; }
    var i, offset := bitnum / 8, bitnum % 8;
    Pow2Literals();
    Pow2Monotone(offset, 7);
    var mask := 255 - Pow2(offset);
    ClearBit(map_.data[i], offset, mask);
    hide Bit, And, Pow2;
    map_.data[i] := And(map_.data[i], mask);
    forall b: nat | b < map_.Capacity() ensures map_.Has(b) <==> old(map_.Has(b)) && b != bitnum {
      SamePlace(b, bitnum);
    }
    r := 0;
  }

  lemma SamePlace(b: nat, c: nat)
    ensures b == c <==> b / 8 == c / 8 && b % 8 == c % 8
  {
  }

  /** is_bitmap_set */
  method IsSet(map_: Bitmap?, bitnum: nat) returns (r: int)
    requires map_ != null ==> map_.Valid()
    ensures r == if map_ != null && bitnum in map_.Members() then 1 else 0
  {
    if map_ == null { return 0; }
    LengthGuard(bitnum, map_.data.Length);
    if BitnumToLen(bitnum) > map_.len { return 0; }
    r := BitOf(map_, bitnum);
  }

  method BitOf(map_: Bitmap, bit: nat) returns (r: int)
    requires bit < map_.Capacity()
    ensures r == if map_.Has(bit) then 1 else 0
  {
    AndPow2(map_.data[bit / 8], bit % 8);
    r := if And(map_.data[bit / 8], Pow2(bit % 8)) != 0 then 1 else 0;
  }

  /** get_bitmap_set_count */
  method Count(map_: Bitmap?) returns (cnt: nat)
    requires map_ != null ==> map_.Valid()
    ensures cnt == if map_ == null then 0 else |map_.Members()|
  {
    cnt := 0;
    if map_ == null { return; }
    var bitnum := LenToBitnum(map_.len);
    ghost var counted: set<nat> := {};
    while bitnum > 0
      invariant 0 <= bitnum <= map_.Capacity() && cnt == |counted|
      invariant counted == set b: nat | bitnum <= b < map_.Capacity() && map_.Has(b)
    {
      bitnum := bitnum - 1;
      var one := BitOf(map_, bitnum);
      ghost var now := set b: nat | bitnum <= b < map_.Capacity() && map_.Has(b);
      if one != 0 {
        assert now == counted + {bitnum};
        cnt := cnt + 1;
      } else {
        assert now == counted;
      }
      counted := now;
    }
    assert counted == map_.Members();
  }

  // ---- every run ------------------------------------------------------------------------------

  datatype Op = SetOp(bitnum: nat) | ClearOp(bitnum: nat)

  /** The run of operations on a set of numbers below the capacity. */
  function Apply(s: set<nat>, ops: seq<Op>, capacity: nat): (t: set<nat>)
    decreases |ops|
  {
    if ops == [] then s
    else
      var before := Apply(s, ops[..|ops| - 1], capacity);
      match ops[|ops| - 1]
      case SetOp(b) => if b < capacity then before + {b} else before
      case ClearOp(b) => before - {b}
  }

  /** After any run of set and clear calls the map is the set of the same run, and its count the cardinality. */
  method Run(map_: Bitmap, ops: seq<Op>) returns (cnt: nat)
    requires map_.Valid()
    modifies map_.data
    ensures map_.Valid() && map_.Members() == Apply(old(map_.Members()), ops, map_.Capacity())
    ensures cnt == |Apply(old(map_.Members()), ops, map_.Capacity())|
  {
    for i := 0 to |ops|
      invariant map_.Valid() && map_.Members() == Apply(old(map_.Members()), ops[..i], map_.Capacity())
    {
      assert ops[..i + 1][..i] == ops[..i];
      match ops[i]
      case SetOp(b) => var r := Set(map_, b);
      case ClearOp(b) => var r := Clear(map_, b);
    }
    assert ops[..|ops|] == ops;
    cnt := Count(map_);
  }
}
