/** Carrying the signal and adjacency matrices over when access points were added or deleted. */
module MatrixMove {

  // ---- new positions ------------------------------------------------------------------------

  /** How many old positions from r on (below n) were not deleted. */
  ghost function KeptFrom(del: seq<int>, r: nat, n: nat): (k: nat)
    requires r <= n
    ensures k <= n - r
    decreases n - r
  {
    if r == n then 0 else KeptFrom(del, r + 1, n) + (if r in del then 0 else 1)
  }

  /** Where the old position r goes: order kept, packed at the tail. */
  ghost function NewPos(del: seq<int>, r: nat, oldLen: nat, newLen: nat): (p: int)
    requires r <= oldLen
  {
    newLen - KeptFrom(del, r, oldLen)
  }

  lemma KeptBase(del: seq<int>, n: nat)
    ensures KeptFrom(del, n, n) == 0
  {
  }

  lemma KeptStep(del: seq<int>, r: nat, n: nat)
    requires r < n
    ensures KeptFrom(del, r, n) == KeptFrom(del, r + 1, n) + (if r in del then 0 else 1)
  {
  }

  lemma {:induction false} KeptFromShrinks(del: seq<int>, r: nat, s: nat, n: nat)
    requires r <= s <= n
    ensures KeptFrom(del, s, n) <= KeptFrom(del, r, n)
    ensures r < s && r !in del ==> KeptFrom(del, s, n) < KeptFrom(del, r, n)
    decreases s - r
  {
    if r < s { KeptFromShrinks(del, r + 1, s, n); }
  }

  /** Different kept positions stay different and in order. */
  lemma NewPosKeepsOrder(del: seq<int>, r: nat, s: nat, oldLen: nat, newLen: nat)
    requires r < s < oldLen && r !in del && s !in del
    ensures NewPos(del, r, oldLen, newLen) < NewPos(del, s, oldLen, newLen)
  {
    KeptFromShrinks(del, r, s, oldLen);
  }

  lemma NewPosInRange(del: seq<int>, oldLen: nat, newLen: nat)
    requires oldLen <= newLen
    ensures forall c :: 0 <= c < oldLen && c !in del ==> 0 <= NewPos(del, c, oldLen, newLen) < newLen
  {
  }

  /** Every place at the tail is taken by a kept position. */
  lemma {:induction false} TailIsTaken(del: seq<int>, r: nat, oldLen: nat, newLen: nat, p: int) returns (s: nat)
    requires r <= oldLen && NewPos(del, r, oldLen, newLen) <= p < newLen
    ensures r <= s < oldLen && s !in del && NewPos(del, s, oldLen, newLen) == p
    decreases oldLen - r
  {
    if r !in del && NewPos(del, r, oldLen, newLen) == p {
      s := r;
    } else {
      s := TailIsTaken(del, r + 1, oldLen, newLen, p);
    }
  }

  // ---- memset ---------------------------------------------------------------------------------

  /** What a memset of the first bytes of a row leaves of the value v in column y. */
  type Wipe = (int, nat) -> nat

  ghost predicate ZeroStays(wipe: Wipe) {
    forall y: int :: wipe(y, 0) == 0
  }

  /**
   * memset with 0x00 over `bytes` bytes of a row of cells of `size` bytes. What is left of a value that is cleared only
   * in part depends on the number of bytes and on the byte order: that is `partial`.
   */
  function Memset(bytes: nat, size: nat, partial: (nat, nat) -> nat): Wipe {
    (y: int, v: nat) => if (y + 1) * size <= bytes then 0 else if y * size < bytes then partial(bytes, v) else v
  }

  method WipeInPlace(m: array2<nat>, row: nat, length: nat, wipe: Wipe)
    requires row < m.Length0 && length <= m.Length1
    modifies m
    ensures forall x, y :: 0 <= x < m.Length0 && 0 <= y < m.Length1 ==>
      m[x, y] == if x == row && y < length then wipe(y, old(m[x, y])) else old(m[x, y])
  {
    for k := 0 to length
      invariant forall x, y :: 0 <= x < m.Length0 && 0 <= y < m.Length1 ==>
        m[x, y] == if x == row && y < k then wipe(y, old(m[x, y])) else old(m[x, y])
    {
      m[row, k] := wipe(k, m[row, k]);
    }
  }

  // ---- rebuilding into a larger matrix --------------------------------------------------------

  method IsDeleted(del: seq<int>, row: int) returns (flag: bool)
    ensures flag <==> row in del
  {
    flag := false;
    for i := 0 to |del|
      invariant !flag && row !in del[..i]
    {
      if row == del[i] { return true; }
    }
    assert del[..|del|] == del;
  }

  /** One row of the new matrix. */
  ghost predicate RowMoved(m: array2<nat>, old_: array2<nat>, del: seq<int>, row: nat,
      rowNew: nat, oldLen: nat, newLen: nat)
    requires row < oldLen <= old_.Length0 && oldLen <= old_.Length1 && oldLen < newLen
    requires rowNew < newLen <= m.Length0 && newLen <= m.Length1
    reads m, old_
  {
    && (forall c :: 0 <= c < oldLen && c !in del ==> m[rowNew, NewPos(del, c, oldLen, newLen)] == old_[row, c])
    && (forall y :: 0 <= y < NewPos(del, 0, oldLen, newLen) ==> m[rowNew, y] == 0)
  }

  /** The inner loop: the kept cells of an old row go to the tail of a new row that was still zero. */
  method MoveRow(m: array2<nat>, old_: array2<nat>, del: seq<int>, row: nat, rowNew: nat, oldLen: nat, newLen: nat)
    requires m != old_ && row < oldLen <= old_.Length0 && oldLen <= old_.Length1 && oldLen < newLen
    requires row < rowNew < newLen <= m.Length0 && newLen <= m.Length1
    requires forall y :: 0 <= y < newLen ==> m[row, y] == 0 && m[rowNew, y] == 0
    modifies m
    ensures RowMoved(m, old_, del, row, rowNew, oldLen, newLen)
    ensures forall x, y :: 0 <= x < m.Length0 && 0 <= y < m.Length1 && x != rowNew ==> m[x, y] == old(m[x, y])
  {
    hide KeptFrom;
    KeptBase(del, oldLen);
    var col, colNew: int := oldLen - 1, newLen - 1;
    while col >= 0 && colNew >= 0
      invariant -1 <= col < oldLen && colNew == newLen - 1 - KeptFrom(del, col + 1, oldLen)
      invariant forall c :: col < c < oldLen && c !in del ==>
        colNew < NewPos(del, c, oldLen, newLen) < newLen && m[rowNew, NewPos(del, c, oldLen, newLen)] == old_[row, c]
      invariant forall y :: 0 <= y <= colNew ==> m[rowNew, y] == 0
      invariant forall x, y :: 0 <= x < m.Length0 && 0 <= y < m.Length1 && x != rowNew ==> m[x, y] == old(m[x, y])
      decreases col
    {
      KeptStep(del, col, oldLen);
      var gone := IsDeleted(del, col);
      if gone {
        m[row, col] := 0;
        col := col - 1;
        continue;
      }
      m[rowNew, colNew] := old_[row, col];
      colNew := colNew - 1;
      col := col - 1;
    }
  }

  /** The new matrix: kept pairs at their new positions, zero before them. */
  ghost predicate RebuiltFrom(m: array2<nat>, old_: array2<nat>, del: seq<int>, oldLen: nat, newLen: nat)
    requires oldLen <= old_.Length0 && oldLen <= old_.Length1 && oldLen < newLen
    requires newLen <= m.Length0 && newLen <= m.Length1
    reads m, old_
  {
    && (forall r, c :: 0 <= r < oldLen && 0 <= c < oldLen && r !in del && c !in del ==>
          m[NewPos(del, r, oldLen, newLen), NewPos(del, c, oldLen, newLen)] == old_[r, c])
    && (forall x, y ::
          0 <= x < newLen && 0 <= y < newLen
          && (x < NewPos(del, 0, oldLen, newLen) || y < NewPos(del, 0, oldLen, newLen))
          ==> m[x, y] == 0)
  }

  /** The outer loop over a zeroed matrix, in which a memset of a deleted row changes nothing. */
  method Rebuild(m: array2<nat>, old_: array2<nat>, del: seq<int>, oldLen: nat, newLen: nat, wipe: Wipe)
    requires m != old_ && oldLen <= old_.Length0 && oldLen <= old_.Length1 && oldLen < newLen
    requires newLen <= m.Length0 && newLen <= m.Length1 && ZeroStays(wipe)
    requires forall x, y :: 0 <= x < newLen && 0 <= y < newLen ==> m[x, y] == 0
    modifies m
    ensures RebuiltFrom(m, old_, del, oldLen, newLen)
  {
    hide KeptFrom, RebuiltFrom;
    KeptBase(del, oldLen);
    NewPosInRange(del, oldLen, newLen);
    var row, rowNew: int := oldLen - 1, newLen - 1;
    while row >= 0 && rowNew >= 0
      invariant -1 <= row < oldLen && rowNew == newLen - 1 - KeptFrom(del, row + 1, oldLen)
      invariant forall r :: row < r < oldLen && r !in del ==>
        rowNew < NewPos(del, r, oldLen, newLen) < newLen
        && RowMoved(m, old_, del, r, NewPos(del, r, oldLen, newLen), oldLen, newLen)
      invariant forall x, y :: 0 <= x <= rowNew && 0 <= y < newLen ==> m[x, y] == 0
      decreases row
    {
      KeptStep(del, row, oldLen);
      var gone := IsDeleted(del, row);
      if gone {
        WipeInPlace(m, row, oldLen, wipe);
        row := row - 1;
        continue;
      }
      MoveRow(m, old_, del, row, rowNew, oldLen, newLen);
      rowNew := rowNew - 1;
      row := row - 1;
    }
    Assembled(m, old_, del, oldLen, newLen);
  }

  lemma Assembled(m: array2<nat>, old_: array2<nat>, del: seq<int>, oldLen: nat, newLen: nat)
    requires oldLen <= old_.Length0 && oldLen <= old_.Length1 && oldLen < newLen
    requires newLen <= m.Length0 && newLen <= m.Length1
    requires forall r :: 0 <= r < oldLen && r !in del ==>
      0 <= NewPos(del, r, oldLen, newLen) < newLen
      && RowMoved(m, old_, del, r, NewPos(del, r, oldLen, newLen), oldLen, newLen)
    requires forall x, y :: 0 <= x < NewPos(del, 0, oldLen, newLen) && 0 <= y < newLen ==> m[x, y] == 0
    ensures RebuiltFrom(m, old_, del, oldLen, newLen)
  {
    var first := NewPos(del, 0, oldLen, newLen);
    forall x, y | 0 <= x < newLen && 0 <= y < newLen && (x < first || y < first) ensures m[x, y] == 0 {
      if x >= first {
        var r := TailIsTaken(del, 0, oldLen, newLen, x);
        assert RowMoved(m, old_, del, r, x, oldLen, newLen);
      }
    }
  }

  // ---- moving in place: the loops on values -----------------------------------------------------

  /** The values of a matrix, by row and column. */
  type Grid = (int, int) -> nat

  function Put(g: Grid, x: int, y: int, v: nat): Grid {
    (a: int, b: int) => if a == x && b == y then v else g(a, b)
  }

  function WipeRow(g: Grid, row: int, length: nat, wipe: Wipe): Grid {
    (a: int, b: int) => if a == row && 0 <= b < length then wipe(b, g(a, b)) else g(a, b)
  }

  /** Copy, then clear: a cell copied onto itself is lost. */
  function MoveCell(g: Grid, row: int, col: int, rowNew: int, colNew: int): Grid {
    Put(Put(g, rowNew, colNew, g(row, col)), row, col, 0)
  }

  /** The inner loop from column `col` on. */
  ghost function MoveCols(g: Grid, del: seq<int>, row: int, col: int, rowNew: int, colNew: int): Grid
    decreases if col < 0 then 0 else col + 1
  {
    if col < 0 || colNew < 0 then g
    else if col in del then MoveCols(Put(g, row, col, 0), del, row, col - 1, rowNew, colNew)
    else MoveCols(MoveCell(g, row, col, rowNew, colNew), del, row, col - 1, rowNew, colNew - 1)
  }

  /** The outer loop from row `row` on. */
  ghost function MoveRows(g: Grid, del: seq<int>, row: int, rowNew: int, oldLen: nat, newLen: nat, wipe: Wipe): Grid
    decreases if row < 0 then 0 else row + 1
  {
    if row < 0 || rowNew < 0 then g
    else if row in del then MoveRows(WipeRow(g, row, oldLen, wipe), del, row - 1, rowNew, oldLen, newLen, wipe)
    else
      MoveRows(MoveCols(g, del, row, oldLen - 1, rowNew, newLen - 1), del, row - 1, rowNew - 1, oldLen, newLen, wipe)
  }

  ghost function InPlace(g: Grid, del: seq<int>, oldLen: nat, newLen: nat, wipe: Wipe): Grid {
    MoveRows(g, del, oldLen - 1, newLen - 1, oldLen, newLen, wipe)
  }

  // ---- moving in place: the program -------------------------------------------------------------

  ghost function Snapshot(m: array2<nat>): (s: seq<seq<nat>>)
    reads m
    ensures |s| == m.Length0 && forall x :: 0 <= x < |s| ==> |s[x]| == m.Length1
    ensures forall x, y :: 0 <= x < m.Length0 && 0 <= y < m.Length1 ==> s[x][y] == m[x, y]
  {
    seq(m.Length0, x requires 0 <= x < m.Length0 reads m =>
      seq(m.Length1, y requires 0 <= y < m.Length1 reads m => m[x, y]))
  }

  ghost function GridOf(s: seq<seq<nat>>): Grid {
    (x: int, y: int) => if 0 <= x < |s| && 0 <= y < |s[x]| then s[x][y] else 0
  }

  ghost predicate Holds(m: array2<nat>, g: Grid)
    reads m
  {
    forall x, y :: 0 <= x < m.Length0 && 0 <= y < m.Length1 ==> m[x, y] == g(x, y)
  }

  /** The inner loop in place. */
  method MoveRowInPlace(m: array2<nat>, del: seq<int>, row: nat, rowNew: nat, oldLen: nat, newLen: nat, ghost g: Grid)
    requires oldLen <= m.Length0 && oldLen <= m.Length1 && newLen <= m.Length0 && newLen <= m.Length1
    requires row < oldLen && rowNew < newLen && Holds(m, g)
    modifies m
    ensures Holds(m, MoveCols(g, del, row, oldLen - 1, rowNew, newLen - 1))
  {
    var col, colNew: int := oldLen - 1, newLen - 1;
    ghost var whole, now := MoveCols(g, del, row, col, rowNew, colNew), g;
    while col >= 0 && colNew >= 0
      invariant -1 <= col < oldLen && -1 <= colNew < newLen
      invariant Holds(m, now) && MoveCols(now, del, row, col, rowNew, colNew) == whole
      decreases col
    {
      var gone := IsDeleted(del, col);
      if gone {
        m[row, col] := 0;
        now := Put(now, row, col, 0);
        col := col - 1;
        continue;
      }
      m[rowNew, colNew] := m[row, col];
      m[row, col] := 0;
      now := MoveCell(now, row, col, rowNew, colNew);
      colNew := colNew - 1;
      col := col - 1;
    }
  }

  /** moveBackwardMatrix on one matrix in place, for any list lengths and deletions. */
  method MoveInPlace(m: array2<nat>, del: seq<int>, oldLen: nat, newLen: nat, wipe: Wipe)
    requires oldLen <= m.Length0 && oldLen <= m.Length1 && newLen <= m.Length0 && newLen <= m.Length1
    modifies m
    ensures Holds(m, InPlace(old(GridOf(Snapshot(m))), del, oldLen, newLen, wipe))
  {
    hide MoveCols;
    ghost var g := GridOf(Snapshot(m));
    var row, rowNew: int := oldLen - 1, newLen - 1;
    ghost var now := g;
    while row >= 0 && rowNew >= 0
      invariant -1 <= row < oldLen && -1 <= rowNew < newLen
      invariant Holds(m, now)
      invariant MoveRows(now, del, row, rowNew, oldLen, newLen, wipe) == InPlace(g, del, oldLen, newLen, wipe)
      decreases row
    {
      var gone := IsDeleted(del, row);
      if gone {
        WipeInPlace(m, row, oldLen, wipe);
        now := WipeRow(now, row, oldLen, wipe);
        row := row - 1;
        continue;
      }
      MoveRowInPlace(m, del, row, rowNew, oldLen, newLen, now);
      now := MoveCols(now, del, row, oldLen - 1, rowNew, newLen - 1);
      rowNew := rowNew - 1;
      row := row - 1;
    }
  }

}
