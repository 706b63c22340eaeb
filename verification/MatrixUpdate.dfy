/** The two matrices of the access point list, and their update when the list changed. */
module MatrixUpdate {
  import opened MatrixMove
  import opened MatrixSafety

  /** Bytes of one cell of the adjacency and of the signal matrix. */
  const UCHAR_SIZE: nat := 1
  const ULONG_SIZE: nat := 8

  ghost predicate AllZero(m: array2<nat>)
    reads m
  {
    forall x, y :: 0 <= x < m.Length0 && 0 <= y < m.Length1 ==> m[x, y] == 0
  }

  ghost predicate KeepsZero(partial: (nat, nat) -> nat) {
    forall bytes: nat :: partial(bytes, 0) == 0
  }

  /** `m` holds what the in-place move makes of the values s. */
  ghost predicate MovedFrom(m: array2<nat>, s: seq<seq<nat>>, del: seq<int>, oldLen: nat, newLen: nat, wipe: Wipe)
    reads m
  {
    && Holds(m, InPlace(GridOf(s), del, oldLen, newLen, wipe))
    && (SafeMove(del, oldLen, newLen, wipe) ==>
          Survives(GridOf(s), InPlace(GridOf(s), del, oldLen, newLen, wipe), del, oldLen, newLen))
  }

  class Matrices {
    var adjacent: array2<nat>
    var rssi: array2<nat>
    var matrixLen: nat
    var oldListCount: nat
    var deleted: seq<int>
    const partial: (nat, nat) -> nat

    constructor (partial: (nat, nat) -> nat)
      requires KeepsZero(partial)
      ensures Valid() && matrixLen == 0 && deleted == [] && this.partial == partial
    {
      adjacent, rssi := new nat[0, 0], new nat[0, 0];
      matrixLen, oldListCount, deleted := 0, 0, [];
      this.partial := partial;
    }

    /** Matrices of length 0 stand for those that are not allocated yet. */
    ghost predicate Valid()
      reads this
    {
      && adjacent != rssi && oldListCount <= matrixLen && KeepsZero(partial)
      && adjacent.Length0 == adjacent.Length1 == matrixLen
      && rssi.Length0 == rssi.Length1 == matrixLen
    }

    /** The memset of a deleted row of each matrix: as many bytes as the old list had entries. */
    function AdjacentWipe(oldLen: nat): Wipe { Memset(oldLen, UCHAR_SIZE, partial) }
    function RssiWipe(oldLen: nat): Wipe { Memset(oldLen, ULONG_SIZE, partial) }

    /** setupAdjacentAndRSSIMatrix: allocates matrices unless there are some; an empty list is an error. */
    method Setup(count: nat) returns (ok: bool)
      requires Valid()
      modifies this
      ensures ok <==> count > 0
      ensures Valid() && deleted == old(deleted)
      ensures !ok || old(matrixLen) > 0 ==>
        adjacent == old(adjacent) && rssi == old(rssi)
        && matrixLen == old(matrixLen) && oldListCount == old(oldListCount)
      ensures ok && old(matrixLen) == 0 ==>
        fresh(adjacent) && fresh(rssi) && matrixLen == oldListCount == count && AllZero(adjacent) && AllZero(rssi)
    {
      if count == 0 { return false; }
      if matrixLen == 0 {
        matrixLen, oldListCount := count, count;
        adjacent := new nat[count, count]((i, j) => 0);
        rssi := new nat[count, count]((i, j) => 0);
      }
      ok := true;
    }

    /** updateAdjacentAndRSSIMatrix for a list of `count` access points, whatever was added and deleted. */
    method Update(count: nat) returns (ok: bool)
      requires Valid()
      modifies this, adjacent, rssi
      ensures Valid() && (ok <==> old(matrixLen) > 0 || count > 0)
      ensures ok ==> deleted == [] && oldListCount == count
      ensures !ok ==> deleted == old(deleted) && matrixLen == 0
      ensures old(matrixLen) == 0 && ok ==> matrixLen == count && AllZero(adjacent) && AllZero(rssi)
      ensures 0 < old(matrixLen) < count ==>
        && matrixLen == count
        && Snapshot(old(rssi)) == old(Snapshot(rssi)) && Snapshot(old(adjacent)) == old(Snapshot(adjacent))
        && RebuiltFrom(rssi, old(rssi), old(deleted), old(oldListCount), count)
        && RebuiltFrom(adjacent, old(adjacent), old(deleted), old(oldListCount), count)
      ensures count <= old(matrixLen) ==> rssi == old(rssi) && adjacent == old(adjacent)
      ensures 0 < count <= old(matrixLen) ==>
        && MovedFrom(rssi, old(Snapshot(rssi)), old(deleted), old(oldListCount), count, RssiWipe(old(oldListCount)))
        && MovedFrom(adjacent, old(Snapshot(adjacent)), old(deleted), old(oldListCount), count,
                     AdjacentWipe(old(oldListCount)))
      ensures 0 < count <= old(matrixLen) ==>
        forall x, y ::
          0 <= y < matrixLen && x in old(deleted) && Visited(old(deleted), x, old(oldListCount), count)
          && !InTail(old(deleted), old(oldListCount), count, x, y) ==>
          && (8 * y >= old(oldListCount) ==> rssi[x, y] == old(rssi[x, y]))
          && (8 * (y + 1) <= old(oldListCount) ==> rssi[x, y] == 0)
          && (y < old(oldListCount) ==> adjacent[x, y] == 0)
      ensures count == 0 ==> Snapshot(rssi) == old(Snapshot(rssi)) && Snapshot(adjacent) == old(Snapshot(adjacent))
    {
      hide RebuiltFrom, MovedFrom, Memset, Visited, InTail;
      if matrixLen == 0 {
        ok := Setup(count);
        if !ok { return; }
      } else if count <= matrixLen {
        if count != 0 { MoveBoth(count); }
      } else {
        RebuildBoth(count);
      }
      deleted, oldListCount := [], count;
      ok := true;
    }

    method MoveBoth(count: nat)
      requires Valid() && count <= matrixLen
      modifies adjacent, rssi
      ensures MovedFrom(rssi, old(Snapshot(rssi)), deleted, oldListCount, count, RssiWipe(oldListCount))
      ensures MovedFrom(adjacent, old(Snapshot(adjacent)), deleted, oldListCount, count, AdjacentWipe(oldListCount))
      ensures forall x, y ::
        0 <= y < matrixLen && x in deleted && Visited(deleted, x, oldListCount, count)
        && !InTail(deleted, oldListCount, count, x, y) ==>
        && (8 * y >= oldListCount ==> rssi[x, y] == old(rssi[x, y]))
        && (8 * (y + 1) <= oldListCount ==> rssi[x, y] == 0)
        && (y < oldListCount ==> adjacent[x, y] == 0)
    {
      hide SafeMove, Survives, InPlace, Memset;
      ghost var a, r := GridOf(Snapshot(adjacent)), GridOf(Snapshot(rssi));
      var wipeA, wipeR := AdjacentWipe(oldListCount), RssiWipe(oldListCount);
      MoveInPlace(adjacent, deleted, oldListCount, count, wipeA);
      MoveInPlace(rssi, deleted, oldListCount, count, wipeR);
      if SafeMove(deleted, oldListCount, count, wipeA) { SafeMoveKeeps(a, deleted, oldListCount, count, wipeA); }
      if SafeMove(deleted, oldListCount, count, wipeR) { SafeMoveKeeps(r, deleted, oldListCount, count, wipeR); }
      forall x, y |
        0 <= y < matrixLen && x in deleted && Visited(deleted, x, oldListCount, count)
        && !InTail(deleted, oldListCount, count, x, y)
        ensures 8 * y >= oldListCount ==> rssi[x, y] == old(rssi[x, y])
        ensures 8 * (y + 1) <= oldListCount ==> rssi[x, y] == 0
        ensures y < oldListCount ==> adjacent[x, y] == 0
      {
        DeletedRow(a, r, deleted, oldListCount, count, x, y);
      }
    }

    /** What the two memsets leave of a deleted row, cell by cell. */
    lemma DeletedRow(a: Grid, r: Grid, del: seq<int>, oldLen: nat, newLen: nat, x: int, y: int)
      requires x in del && Visited(del, x, oldLen, newLen) && !InTail(del, oldLen, newLen, x, y) && 0 <= y
      ensures 8 * y >= oldLen ==> InPlace(r, del, oldLen, newLen, RssiWipe(oldLen))(x, y) == r(x, y)
      ensures 8 * (y + 1) <= oldLen ==> InPlace(r, del, oldLen, newLen, RssiWipe(oldLen))(x, y) == 0
      ensures y < oldLen ==> InPlace(a, del, oldLen, newLen, AdjacentWipe(oldLen))(x, y) == 0
    {
      hide InPlace, Visited;
      OutsideTail(r, del, oldLen, newLen, RssiWipe(oldLen), x, y);
      OutsideTail(a, del, oldLen, newLen, AdjacentWipe(oldLen), x, y);
    }

    method RebuildBoth(count: nat)
      requires Valid() && 0 < matrixLen < count
      modifies this
      ensures Valid() && matrixLen == count && fresh(adjacent) && fresh(rssi)
      ensures RebuiltFrom(rssi, old(rssi), old(deleted), old(oldListCount), count)
      ensures RebuiltFrom(adjacent, old(adjacent), old(deleted), old(oldListCount), count)
    {
      hide RebuiltFrom;
      var oldCount, pAdjacent, pRssi := oldListCount, adjacent, rssi;
      matrixLen, oldListCount := 0, 0;
      adjacent, rssi := new nat[0, 0], new nat[0, 0];
      var ok := Setup(count);
      MemsetOfZero(oldCount, UCHAR_SIZE, partial);
      MemsetOfZero(oldCount, ULONG_SIZE, partial);
      hide Memset;
      Rebuild(adjacent, pAdjacent, deleted, oldCount, count, AdjacentWipe(oldCount));
      Rebuild(rssi, pRssi, deleted, oldCount, count, RssiWipe(oldCount));
    }
  }

  lemma MemsetOfZero(bytes: nat, size: nat, partial: (nat, nat) -> nat)
    requires KeepsZero(partial)
    ensures ZeroStays(Memset(bytes, size, partial))
  {
  }

  /** The signals survive an in-place update of a list that did not shrink if and only if it is safe. */
  lemma SignalsKeptIff(del: seq<int>, oldLen: nat, newLen: nat, partial: (nat, nat) -> nat)
    requires KeepsZero(partial) && oldLen <= newLen
    ensures (forall g: Grid ::
               Survives(g, InPlace(g, del, oldLen, newLen, Memset(oldLen, ULONG_SIZE, partial)), del, oldLen, newLen))
       <==> newLen > oldLen || oldLen == 0 || oldLen - 1 in del
  {
    hide Survives, InPlace, SafeMove;
    MemsetOfZero(oldLen, ULONG_SIZE, partial);
    var wipe := Memset(oldLen, ULONG_SIZE, partial);
    hide Memset;
    MoveKeepsAllIff(del, oldLen, newLen, wipe);
    GrownListSafeIff(del, oldLen, newLen, wipe);
  }

  /** In the adjacency matrix pairs with a new access point always start at zero. */
  lemma NewEdgesZero(del: seq<int>, oldLen: nat, newLen: nat, partial: (nat, nat) -> nat)
    ensures WipesNewPairs(del, oldLen, newLen, Memset(oldLen, UCHAR_SIZE, partial))
  {
    hide NewPair;
  }

  /** In the signal matrix they do so if and only if all such cells lie in the first oldLen bytes of their row. */
  lemma NewSignalsZeroIff(del: seq<int>, oldLen: nat, newLen: nat, partial: (nat, nat) -> nat)
    requires KeepsZero(partial) && exists v: nat :: partial(oldLen, v) != 0
    ensures (forall g: Grid :: InsideOld(g, oldLen) ==>
               NewPairsZero(InPlace(g, del, oldLen, newLen, Memset(oldLen, ULONG_SIZE, partial)), del, oldLen, newLen))
       <==> forall x, y :: NewPair(del, oldLen, newLen, x, y) && x < oldLen && y < oldLen && x in del ==>
              ULONG_SIZE * (y + 1) <= oldLen
  {
    hide NewPair, InPlace, NewPairsZero, InsideOld;
    var wipe := Memset(oldLen, ULONG_SIZE, partial);
    MemsetOfZero(oldLen, ULONG_SIZE, partial);
    NewPairsZeroIff(del, oldLen, newLen, wipe);
    var some: nat :| partial(oldLen, some) != 0;
    if WipesNewPairs(del, oldLen, newLen, wipe) {
      forall x, y | NewPair(del, oldLen, newLen, x, y) && x < oldLen && y < oldLen && x in del
        ensures ULONG_SIZE * (y + 1) <= oldLen
      {
        assert wipe(y, some) == 0 && wipe(y, 1) == 0;
      }
    }
  }
}
