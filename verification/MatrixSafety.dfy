/** When the in-place move keeps every value, whatever was added and deleted, and what it leaves in the other cells. */
module MatrixSafety {
  import opened MatrixMove

  ghost predicate Kept(del: seq<int>, r: int, oldLen: nat) { 0 <= r < oldLen && r !in del }

  ghost function Wiped(wipe: Wipe, oldLen: nat, y: int, v: nat): nat {
    if 0 <= y < oldLen then wipe(y, v) else v
  }

  /** Every kept pair is at its new position with its old value. */
  ghost predicate Survives(g: Grid, after: Grid, del: seq<int>, oldLen: nat, newLen: nat) {
    forall r, c :: Kept(del, r, oldLen) && Kept(del, c, oldLen) ==>
      var x, y := NewPos(del, r, oldLen, newLen), NewPos(del, c, oldLen, newLen);
      0 <= x && 0 <= y && after(x, y) == g(r, c)
  }

  /** The memset of a deleted row does not reach the columns that kept values move to. */
  ghost predicate SparesTail(del: seq<int>, oldLen: nat, newLen: nat, wipe: Wipe) {
    forall c, v: nat :: Kept(del, c, oldLen) ==> Wiped(wipe, oldLen, NewPos(del, c, oldLen, newLen), v) == v
  }

  /** Position r moves up, or moves down to a deleted position whose row is spared or never visited any more. */
  ghost predicate SafePosition(del: seq<int>, r: nat, oldLen: nat, newLen: nat, wipe: Wipe)
    requires r < oldLen
  {
    var x := NewPos(del, r, oldLen, newLen);
    && 0 <= x
    && (x > r || (x < r && x in del && (NewPos(del, x, oldLen, newLen) == 0 || SparesTail(del, oldLen, newLen, wipe))))
  }

  ghost predicate SafeMove(del: seq<int>, oldLen: nat, newLen: nat, wipe: Wipe) {
    forall r :: Kept(del, r, oldLen) ==> SafePosition(del, r, oldLen, newLen, wipe)
  }

  // ---- a safe move keeps every value ------------------------------------------------------------

  /** Rows above `row` have been moved, the others have not been touched where it matters. */
  ghost predicate RowsMoved(g: Grid, now: Grid, del: seq<int>, row: int, oldLen: nat, newLen: nat) {
    forall r, c :: Kept(del, r, oldLen) && Kept(del, c, oldLen) ==>
      g(r, c) == if r > row then now(NewPos(del, r, oldLen, newLen), NewPos(del, c, oldLen, newLen)) else now(r, c)
  }

  /** The same inside row `row`, whose columns above `col` have been moved. */
  ghost predicate ColsMoved(g: Grid, now: Grid, del: seq<int>, row: int, col: int, oldLen: nat, newLen: nat) {
    forall r, c :: Kept(del, r, oldLen) && Kept(del, c, oldLen) ==>
      g(r, c) == if r > row || (r == row && c > col)
                 then now(NewPos(del, r, oldLen, newLen), NewPos(del, c, oldLen, newLen))
                 else now(r, c)
  }

  lemma NewPosDiffer(del: seq<int>, r: int, s: int, oldLen: nat, newLen: nat)
    requires Kept(del, r, oldLen) && Kept(del, s, oldLen) && r != s
    ensures NewPos(del, r, oldLen, newLen) != NewPos(del, s, oldLen, newLen)
  {
    if r < s { NewPosKeepsOrder(del, r, s, oldLen, newLen); } else { NewPosKeepsOrder(del, s, r, oldLen, newLen); }
  }

  /** The new position of a row is neither the row itself nor that of a kept row not moved yet. */
  lemma TargetIsFree(del: seq<int>, r: int, row: int, oldLen: nat, newLen: nat, wipe: Wipe)
    requires SafeMove(del, oldLen, newLen, wipe) && Kept(del, r, oldLen) && Kept(del, row, oldLen) && row <= r
    ensures NewPos(del, r, oldLen, newLen) != row
  {
    hide KeptFrom;
    assert SafePosition(del, r, oldLen, newLen, wipe);
  }

  lemma ClearKeepsMoved(g: Grid, now: Grid, del: seq<int>, row: int, col: int, oldLen: nat, newLen: nat, wipe: Wipe)
    requires SafeMove(del, oldLen, newLen, wipe) && Kept(del, row, oldLen) && 0 <= col < oldLen && col in del
    requires ColsMoved(g, now, del, row, col, oldLen, newLen)
    ensures ColsMoved(g, Put(now, row, col, 0), del, row, col - 1, oldLen, newLen)
  {
    hide KeptFrom, SafeMove;
    forall r | Kept(del, r, oldLen) && row <= r ensures NewPos(del, r, oldLen, newLen) != row {
      TargetIsFree(del, r, row, oldLen, newLen, wipe);
    }
  }

  lemma MoveKeepsMoved(g: Grid, now: Grid, del: seq<int>, row: int, col: int, oldLen: nat, newLen: nat, wipe: Wipe)
    requires SafeMove(del, oldLen, newLen, wipe) && Kept(del, row, oldLen) && Kept(del, col, oldLen)
    requires ColsMoved(g, now, del, row, col, oldLen, newLen)
    ensures var x, y := NewPos(del, row, oldLen, newLen), NewPos(del, col, oldLen, newLen);
      ColsMoved(g, MoveCell(now, row, col, x, y), del, row, col - 1, oldLen, newLen)
  {
    hide KeptFrom, SafeMove;
    var x, y := NewPos(del, row, oldLen, newLen), NewPos(del, col, oldLen, newLen);
    var after := MoveCell(now, row, col, x, y);
    forall r, c | Kept(del, r, oldLen) && Kept(del, c, oldLen)
      ensures g(r, c) == if r > row || (r == row && c > col - 1)
                         then after(NewPos(del, r, oldLen, newLen), NewPos(del, c, oldLen, newLen)) else after(r, c)
    {
      if r >= row { TargetIsFree(del, r, row, oldLen, newLen, wipe); }
      if r <= row { TargetIsFree(del, row, r, oldLen, newLen, wipe); }
      if r != row { NewPosDiffer(del, r, row, oldLen, newLen); }
      if c != col { NewPosDiffer(del, c, col, oldLen, newLen); }
    }
  }

  /** Columns at or below one that no kept column maps under are all deleted once the new columns are used up. */
  lemma NothingLeft(del: seq<int>, k: int, oldLen: nat, newLen: nat, wipe: Wipe, c: int)
    requires SafeMove(del, oldLen, newLen, wipe) && -1 <= k < oldLen && newLen == KeptFrom(del, k + 1, oldLen)
    requires Kept(del, c, oldLen)
    ensures c > k
  {
    assert SafePosition(del, c, oldLen, newLen, wipe);
    if c <= k { KeptFromShrinks(del, c, k + 1, oldLen); }
  }

  lemma {:induction false} ColsSurvive(g: Grid, now: Grid, del: seq<int>, row: int, col: int, colNew: int,
      oldLen: nat, newLen: nat, wipe: Wipe)
    requires SafeMove(del, oldLen, newLen, wipe) && Kept(del, row, oldLen) && -1 <= col < oldLen
    requires colNew == newLen - 1 - KeptFrom(del, col + 1, oldLen) && colNew >= -1
    requires ColsMoved(g, now, del, row, col, oldLen, newLen)
    ensures RowsMoved(g, MoveCols(now, del, row, col, NewPos(del, row, oldLen, newLen), colNew),
      del, row - 1, oldLen, newLen)
    decreases col + 1
  {
    hide KeptFrom, SafeMove;
    var x := NewPos(del, row, oldLen, newLen);
    if col < 0 || colNew < 0 {
      forall c | colNew < 0 && Kept(del, c, oldLen) ensures c > col { NothingLeft(del, col, oldLen, newLen, wipe, c); }
    } else {
      KeptStep(del, col, oldLen);
      if col in del {
        ClearKeepsMoved(g, now, del, row, col, oldLen, newLen, wipe);
        ColsSurvive(g, Put(now, row, col, 0), del, row, col - 1, colNew, oldLen, newLen, wipe);
      } else {
        MoveKeepsMoved(g, now, del, row, col, oldLen, newLen, wipe);
        ColsSurvive(g, MoveCell(now, row, col, x, colNew), del, row, col - 1, colNew - 1, oldLen, newLen, wipe);
      }
    }
  }

  lemma WipeKeepsMoved(g: Grid, now: Grid, del: seq<int>, row: int, oldLen: nat, newLen: nat, wipe: Wipe)
    requires SafeMove(del, oldLen, newLen, wipe) && 0 <= row < oldLen && row in del
    requires NewPos(del, row, oldLen, newLen) > 0 && RowsMoved(g, now, del, row, oldLen, newLen)
    ensures RowsMoved(g, WipeRow(now, row, oldLen, wipe), del, row - 1, oldLen, newLen)
  {
    hide KeptFrom;
    var after := WipeRow(now, row, oldLen, wipe);
    forall r, c | Kept(del, r, oldLen) && Kept(del, c, oldLen)
      ensures g(r, c) == if r > row - 1 then after(NewPos(del, r, oldLen, newLen), NewPos(del, c, oldLen, newLen))
                          else after(r, c)
    {
      assert SafePosition(del, r, oldLen, newLen, wipe);
      if r > row && NewPos(del, r, oldLen, newLen) == row {
        var y := NewPos(del, c, oldLen, newLen);
        assert Wiped(wipe, oldLen, y, now(row, y)) == now(row, y);
      }
    }
  }

  lemma {:induction false} RowsSurvive(g: Grid, now: Grid, del: seq<int>, row: int, rowNew: int,
      oldLen: nat, newLen: nat, wipe: Wipe)
    requires SafeMove(del, oldLen, newLen, wipe) && -1 <= row < oldLen
    requires rowNew == newLen - 1 - KeptFrom(del, row + 1, oldLen) && rowNew >= -1
    requires RowsMoved(g, now, del, row, oldLen, newLen)
    ensures Survives(g, MoveRows(now, del, row, rowNew, oldLen, newLen, wipe), del, oldLen, newLen)
    decreases row + 1
  {
    hide KeptFrom, MoveCols;
    if row < 0 || rowNew < 0 {
      forall r | Kept(del, r, oldLen) ensures r > row && 0 <= NewPos(del, r, oldLen, newLen) {
        assert SafePosition(del, r, oldLen, newLen, wipe);
        if rowNew < 0 { NothingLeft(del, row, oldLen, newLen, wipe, r); }
      }
    } else {
      KeptStep(del, row, oldLen);
      if row in del {
        WipeKeepsMoved(g, now, del, row, oldLen, newLen, wipe);
        RowsSurvive(g, WipeRow(now, row, oldLen, wipe), del, row - 1, rowNew, oldLen, newLen, wipe);
      } else {
        KeptBase(del, oldLen);
        ColsSurvive(g, now, del, row, oldLen - 1, newLen - 1, oldLen, newLen, wipe);
        var after := MoveCols(now, del, row, oldLen - 1, rowNew, newLen - 1);
        RowsSurvive(g, after, del, row - 1, rowNew - 1, oldLen, newLen, wipe);
      }
    }
  }

  lemma SafeMoveKeeps(g: Grid, del: seq<int>, oldLen: nat, newLen: nat, wipe: Wipe)
    requires SafeMove(del, oldLen, newLen, wipe)
    ensures Survives(g, InPlace(g, del, oldLen, newLen, wipe), del, oldLen, newLen)
  {
    hide MoveRows;
    KeptBase(del, oldLen);
    RowsSurvive(g, g, del, oldLen - 1, newLen - 1, oldLen, newLen, wipe);
  }

  // ---- any other move loses some value ----------------------------------------------------------

  /** All cells are zero except at most one, which holds v. */
  ghost predicate OnlyAt(g: Grid, x: int, y: int, v: nat) {
    forall a: int, b: int :: g(a, b) == 0 || (a == x && b == y && g(a, b) == v)
  }

  ghost function Single(x: int, y: int, v: nat): (g: Grid)
    ensures OnlyAt(g, x, y, v) && g(x, y) == v
  {
    (a: int, b: int) => if a == x && b == y then v else 0
  }

  lemma {:induction false} ColsSpare(g: Grid, del: seq<int>, row: int, col: int, rowNew: int, colNew: int,
      x: int, y: int, v: nat)
    requires OnlyAt(g, x, y, v) && row != x
    ensures OnlyAt(MoveCols(g, del, row, col, rowNew, colNew), x, y, v)
    decreases if col < 0 then 0 else col + 1
  {
    if col >= 0 && colNew >= 0 {
      if col in del {
        ColsSpare(Put(g, row, col, 0), del, row, col - 1, rowNew, colNew, x, y, v);
      } else {
        ColsSpare(MoveCell(g, row, col, rowNew, colNew), del, row, col - 1, rowNew, colNew - 1, x, y, v);
      }
    }
  }

  lemma {:induction false} RowsSpare(g: Grid, del: seq<int>, row: int, rowNew: int, oldLen: nat, newLen: nat,
      wipe: Wipe,
      x: int, y: int, v: nat)
    requires OnlyAt(g, x, y, v) && x > row && ZeroStays(wipe)
    ensures OnlyAt(MoveRows(g, del, row, rowNew, oldLen, newLen, wipe), x, y, v)
    decreases if row < 0 then 0 else row + 1
  {
    hide MoveCols;
    if row >= 0 && rowNew >= 0 {
      if row in del {
        RowsSpare(WipeRow(g, row, oldLen, wipe), del, row - 1, rowNew, oldLen, newLen, wipe, x, y, v);
      } else {
        ColsSpare(g, del, row, oldLen - 1, rowNew, newLen - 1, x, y, v);
        var after := MoveCols(g, del, row, oldLen - 1, rowNew, newLen - 1);
        RowsSpare(after, del, row - 1, rowNew - 1, oldLen, newLen, wipe, x, y, v);
      }
    }
  }

  /** The rows above r leave a value at or below r alone, or overwrite it with zero. */
  lemma {:induction false} Approach(g: Grid, del: seq<int>, row: int, rowNew: int, oldLen: nat, newLen: nat, wipe: Wipe,
      r: int, x: int, y: int, v: nat) returns (g': Grid)
    requires 0 <= r <= row < oldLen && x <= r && OnlyAt(g, x, y, v) && ZeroStays(wipe)
    requires rowNew == newLen - 1 - KeptFrom(del, row + 1, oldLen) && KeptFrom(del, r + 1, oldLen) < newLen
    ensures OnlyAt(g', x, y, v)
    ensures MoveRows(g, del, row, rowNew, oldLen, newLen, wipe)
         == MoveRows(g', del, r, newLen - 1 - KeptFrom(del, r + 1, oldLen), oldLen, newLen, wipe)
    decreases row
  {
    hide MoveCols, KeptFrom;
    if row == r {
      g' := g;
    } else {
      KeptFromShrinks(del, r + 1, row + 1, oldLen);
      KeptStep(del, row, oldLen);
      if row in del {
        g' := Approach(WipeRow(g, row, oldLen, wipe), del, row - 1, rowNew, oldLen, newLen, wipe, r, x, y, v);
      } else {
        ColsSpare(g, del, row, oldLen - 1, rowNew, newLen - 1, x, y, v);
        var after := MoveCols(g, del, row, oldLen - 1, rowNew, newLen - 1);
        g' := Approach(after, del, row - 1, rowNew - 1, oldLen, newLen, wipe, r, x, y, v);
      }
    }
  }

  /** A cell whose new position is its own is cleared. */
  lemma {:induction false} SelfCopyIsLost(g: Grid, del: seq<int>, row: int, col: int, colNew: int,
      oldLen: nat, newLen: nat, v: nat)
    requires Kept(del, row, oldLen) && row <= col < oldLen && NewPos(del, row, oldLen, newLen) == row
    requires colNew == newLen - 1 - KeptFrom(del, col + 1, oldLen) && OnlyAt(g, row, row, v)
    ensures OnlyAt(MoveCols(g, del, row, col, row, colNew), row + 1, 0, 0)
    decreases col
  {
    hide KeptFrom;
    KeptStep(del, col, oldLen);
    if col == row {
      ColsSpare(MoveCell(g, row, col, row, colNew), del, row, col - 1, row, colNew - 1, row + 1, 0, 0);
    } else {
      KeptFromShrinks(del, row, col, oldLen);
      if col in del {
        SelfCopyIsLost(Put(g, row, col, 0), del, row, col - 1, colNew, oldLen, newLen, v);
      } else {
        KeptFromShrinks(del, row, col + 1, oldLen);
        SelfCopyIsLost(MoveCell(g, row, col, row, colNew), del, row, col - 1, colNew - 1, oldLen, newLen, v);
      }
    }
  }

  /** A cell that is the new position of another row's zero is overwritten with it. */
  lemma {:induction false} TargetIsOverwritten(g: Grid, del: seq<int>, row: int, col: int, rowNew: int, colNew: int,
      oldLen: nat, newLen: nat, c: int, v: nat)
    requires row != rowNew && Kept(del, c, oldLen) && c <= col < oldLen && NewPos(del, c, oldLen, newLen) >= 0
    requires colNew == newLen - 1 - KeptFrom(del, col + 1, oldLen)
    requires OnlyAt(g, rowNew, NewPos(del, c, oldLen, newLen), v)
    ensures OnlyAt(MoveCols(g, del, row, col, rowNew, colNew), row + 1, 0, 0)
    decreases col
  {
    hide KeptFrom;
    KeptStep(del, col, oldLen);
    if col == c {
      ColsSpare(MoveCell(g, row, col, rowNew, colNew), del, row, col - 1, rowNew, colNew - 1, row + 1, 0, 0);
    } else {
      KeptFromShrinks(del, c, col + 1, oldLen);
      if col in del {
        TargetIsOverwritten(Put(g, row, col, 0), del, row, col - 1, rowNew, colNew, oldLen, newLen, c, v);
      } else {
        TargetIsOverwritten(MoveCell(g, row, col, rowNew, colNew), del, row, col - 1, rowNew, colNew - 1,
          oldLen, newLen, c, v);
      }
    }
  }

  /** A single value in the row being moved ends up at its new position, if it has not been overwritten. */
  lemma {:induction false} ValueMoves(g: Grid, del: seq<int>, row: int, col: int, rowNew: int, colNew: int,
      oldLen: nat, newLen: nat, c: int, v: nat)
    requires row != rowNew && Kept(del, c, oldLen) && c <= col < oldLen && NewPos(del, c, oldLen, newLen) >= 0
    requires colNew == newLen - 1 - KeptFrom(del, col + 1, oldLen) && OnlyAt(g, row, c, v)
    ensures OnlyAt(MoveCols(g, del, row, col, rowNew, colNew), rowNew, NewPos(del, c, oldLen, newLen), v)
    decreases col
  {
    hide KeptFrom;
    KeptStep(del, col, oldLen);
    var y := NewPos(del, c, oldLen, newLen);
    if col == c {
      ColsSpare(MoveCell(g, row, col, rowNew, colNew), del, row, col - 1, rowNew, colNew - 1, rowNew, y, v);
    } else {
      KeptFromShrinks(del, c, col + 1, oldLen);
      if col in del {
        ValueMoves(Put(g, row, col, 0), del, row, col - 1, rowNew, colNew, oldLen, newLen, c, v);
      } else {
        ValueMoves(MoveCell(g, row, col, rowNew, colNew), del, row, col - 1, rowNew, colNew - 1, oldLen, newLen, c, v);
      }
    }
  }

  /** A kept position that stays where it is loses its value. */
  lemma LosesInPlace(del: seq<int>, oldLen: nat, newLen: nat, wipe: Wipe, r: int) returns (g: Grid)
    requires ZeroStays(wipe) && Kept(del, r, oldLen) && NewPos(del, r, oldLen, newLen) == r
    ensures !Survives(g, InPlace(g, del, oldLen, newLen, wipe), del, oldLen, newLen)
  {
    hide KeptFrom, MoveCols;
    KeptBase(del, oldLen);
    KeptStep(del, r, oldLen);
    g := Single(r, r, 1);
    var g' := Approach(g, del, oldLen - 1, newLen - 1, oldLen, newLen, wipe, r, r, r, 1);
    SelfCopyIsLost(g', del, r, oldLen - 1, newLen - 1, oldLen, newLen, 1);
    RowsSpare(MoveCols(g', del, r, oldLen - 1, r, newLen - 1), del, r - 1, r - 1, oldLen, newLen, wipe, r + 1, 0, 0);
  }

  /** A kept position to which another one moves down loses its value. */
  lemma LosesToKept(del: seq<int>, oldLen: nat, newLen: nat, wipe: Wipe, r: int, t: int) returns (g: Grid)
    requires ZeroStays(wipe) && Kept(del, r, oldLen) && Kept(del, t, oldLen) && NewPos(del, r, oldLen, newLen) == t < r
    ensures !Survives(g, InPlace(g, del, oldLen, newLen, wipe), del, oldLen, newLen)
  {
    hide KeptFrom, MoveCols;
    KeptBase(del, oldLen);
    KeptStep(del, r, oldLen);
    g := Single(t, t, 1);
    var g' := Approach(g, del, oldLen - 1, newLen - 1, oldLen, newLen, wipe, r, t, t, 1);
    TargetIsOverwritten(g', del, r, oldLen - 1, t, newLen - 1, oldLen, newLen, r, 1);
    RowsSpare(MoveCols(g', del, r, oldLen - 1, t, newLen - 1), del, r - 1, t - 1, oldLen, newLen, wipe, r + 1, 0, 0);
  }

  /** A value moved down into a deleted row is changed when that row is cleared. */
  lemma LosesToMemset(del: seq<int>, oldLen: nat, newLen: nat, wipe: Wipe, r: int, t: int, c: int, v: nat)
    returns (g: Grid)
    requires ZeroStays(wipe) && Kept(del, r, oldLen) && Kept(del, c, oldLen)
    requires 0 <= t < r && t in del && NewPos(del, r, oldLen, newLen) == t && NewPos(del, t, oldLen, newLen) > 0
    requires NewPos(del, c, oldLen, newLen) >= 0 && Wiped(wipe, oldLen, NewPos(del, c, oldLen, newLen), v) != v
    ensures !Survives(g, InPlace(g, del, oldLen, newLen, wipe), del, oldLen, newLen)
  {
    hide KeptFrom, MoveCols;
    KeptBase(del, oldLen);
    KeptStep(del, r, oldLen);
    KeptStep(del, t, oldLen);
    var y := NewPos(del, c, oldLen, newLen);
    g := Single(r, c, v);
    var g1 := Approach(g, del, oldLen - 1, newLen - 1, oldLen, newLen, wipe, r, r, c, v);
    ValueMoves(g1, del, r, oldLen - 1, t, newLen - 1, oldLen, newLen, c, v);
    var g2 := MoveCols(g1, del, r, oldLen - 1, t, newLen - 1);
    KeptFromShrinks(del, t + 1, r, oldLen);
    var g3 := Approach(g2, del, r - 1, t - 1, oldLen, newLen, wipe, t, t, y, v);
    var w := Wiped(wipe, oldLen, y, v);
    var g4 := WipeRow(g3, t, oldLen, wipe);
    assert OnlyAt(g4, t, y, w);
    RowsSpare(g4, del, t - 1, newLen - 1 - KeptFrom(del, t + 1, oldLen), oldLen, newLen, wipe, t, y, w);
  }

  lemma UnsafeMoveLoses(del: seq<int>, oldLen: nat, newLen: nat, wipe: Wipe) returns (g: Grid)
    requires ZeroStays(wipe) && !SafeMove(del, oldLen, newLen, wipe)
    ensures !Survives(g, InPlace(g, del, oldLen, newLen, wipe), del, oldLen, newLen)
  {
    hide KeptFrom, MoveRows, SparesTail;
    var r :| Kept(del, r, oldLen) && !SafePosition(del, r, oldLen, newLen, wipe);
    if s :| Kept(del, s, oldLen) && NewPos(del, s, oldLen, newLen) < 0 {
      g := Single(s, s, 1);
    } else {
      var t := NewPos(del, r, oldLen, newLen);
      if t == r {
        g := LosesInPlace(del, oldLen, newLen, wipe, r);
      } else if t !in del {
        g := LosesToKept(del, oldLen, newLen, wipe, r, t);
      } else {
        g := LosesToDeleted(del, oldLen, newLen, wipe, r, t);
      }
    }
  }

  lemma LosesToDeleted(del: seq<int>, oldLen: nat, newLen: nat, wipe: Wipe, r: int, t: int) returns (g: Grid)
    requires ZeroStays(wipe) && Kept(del, r, oldLen) && 0 <= t < r && t in del && NewPos(del, r, oldLen, newLen) == t
    requires forall s :: Kept(del, s, oldLen) ==> NewPos(del, s, oldLen, newLen) >= 0
    requires NewPos(del, t, oldLen, newLen) != 0 && !SparesTail(del, oldLen, newLen, wipe)
    ensures !Survives(g, InPlace(g, del, oldLen, newLen, wipe), del, oldLen, newLen)
  {
    hide KeptFrom, MoveRows;
    KeptFromShrinks(del, t, r, oldLen);
    KeptStep(del, r, oldLen);
    var s := TailIsTaken(del, t, oldLen, newLen, NewPos(del, t, oldLen, newLen));
    var c, v: nat :| Kept(del, c, oldLen) && Wiped(wipe, oldLen, NewPos(del, c, oldLen, newLen), v) != v;
    g := LosesToMemset(del, oldLen, newLen, wipe, r, t, c, v);
  }

  /** The in-place move keeps the kept pairs of every matrix if and only if it is safe. */
  lemma MoveKeepsAllIff(del: seq<int>, oldLen: nat, newLen: nat, wipe: Wipe)
    requires ZeroStays(wipe)
    ensures (forall g: Grid :: Survives(g, InPlace(g, del, oldLen, newLen, wipe), del, oldLen, newLen))
       <==> SafeMove(del, oldLen, newLen, wipe)
  {
    hide SafeMove, Survives, InPlace;
    if SafeMove(del, oldLen, newLen, wipe) {
      forall g: Grid ensures Survives(g, InPlace(g, del, oldLen, newLen, wipe), del, oldLen, newLen) {
        SafeMoveKeeps(g, del, oldLen, newLen, wipe);
      }
    } else {
      var g := UnsafeMoveLoses(del, oldLen, newLen, wipe);
    }
  }

  // ---- lists that did not shrink ------------------------------------------------------------------

  lemma {:induction false} LastDeleted(del: seq<int>, r: nat, n: nat)
    requires r < n && n - 1 in del
    ensures KeptFrom(del, r, n) < n - r
    decreases n - r
  {
    if r < n - 1 { LastDeleted(del, r + 1, n); } else { KeptBase(del, n); }
  }

  /** For a list that did not shrink: something was added, or the last position was deleted, or the list was empty. */
  lemma GrownListSafeIff(del: seq<int>, oldLen: nat, newLen: nat, wipe: Wipe)
    requires oldLen <= newLen
    ensures SafeMove(del, oldLen, newLen, wipe) <==> newLen > oldLen || oldLen == 0 || oldLen - 1 in del
  {
    hide KeptFrom, SparesTail;
    if newLen > oldLen || oldLen == 0 || oldLen - 1 in del {
      forall r | Kept(del, r, oldLen) ensures SafePosition(del, r, oldLen, newLen, wipe) {
        if newLen == oldLen { LastDeleted(del, r, oldLen); }
      }
    } else {
      var r := oldLen - 1;
      KeptBase(del, oldLen);
      KeptStep(del, r, oldLen);
      assert Kept(del, r, oldLen) && !SafePosition(del, r, oldLen, newLen, wipe);
    }
  }

  /** One access point, nothing added, nothing deleted: its value is lost. */
  lemma UnchangedListLoses(g: Grid, del: seq<int>, oldLen: nat, wipe: Wipe)
    requires del == [] && oldLen == 1
    ensures InPlace(g, del, oldLen, oldLen, wipe)(0, 0) == 0
  {
    var after := MoveCols(g, del, 0, 0, 0, 0);
    assert after == MoveCols(MoveCell(g, 0, 0, 0, 0), del, 0, -1, 0, -1);
  }

  // ---- the cells no kept pair moves to --------------------------------------------------------------

  /** Whether the loops get to row or column x before the new positions are used up. */
  ghost predicate Visited(del: seq<int>, x: int, oldLen: nat, newLen: nat) {
    0 <= x < oldLen && KeptFrom(del, x + 1, oldLen) < newLen
  }

  /** Where the square of kept pairs begins. */
  ghost function TailStart(del: seq<int>, oldLen: nat, newLen: nat): nat {
    var first := NewPos(del, 0, oldLen, newLen);
    if first < 0 then 0 else first
  }

  ghost predicate InTail(del: seq<int>, oldLen: nat, newLen: nat, x: int, y: int) {
    var first := TailStart(del, oldLen, newLen);
    first <= x < newLen && first <= y < newLen
  }

  /** What is left in an old cell: visited deleted rows are only wiped, visited cells of kept rows are cleared. */
  ghost function Leftover(g: Grid, del: seq<int>, oldLen: nat, newLen: nat, wipe: Wipe, x: int, y: int): nat {
    if !Visited(del, x, oldLen, newLen) then g(x, y)
    else if x in del then Wiped(wipe, oldLen, y, g(x, y))
    else if Visited(del, y, oldLen, newLen) then 0
    else g(x, y)
  }

  /** Behind a position that is not visited none is. */
  lemma VisitsEnd(del: seq<int>, k: int, x: int, oldLen: nat, newLen: nat)
    requires x <= k < oldLen && !Visited(del, k, oldLen, newLen)
    ensures !Visited(del, x, oldLen, newLen)
  {
    hide KeptFrom;
    if 0 <= x { KeptFromShrinks(del, x + 1, k + 1, oldLen); }
  }

  /** The new position used at a visited place lies in the tail. */
  lemma UsedIsTail(del: seq<int>, k: int, oldLen: nat, newLen: nat)
    requires Visited(del, k, oldLen, newLen) && k !in del
    ensures TailStart(del, oldLen, newLen) <= newLen - 1 - KeptFrom(del, k + 1, oldLen) < newLen
  {
    hide KeptFrom;
    KeptStep(del, k, oldLen);
    KeptFromShrinks(del, 0, k, oldLen);
  }

  lemma {:induction false} ColsOutside(g: Grid, del: seq<int>, row: int, col: int, rowNew: int, colNew: int,
      oldLen: nat, newLen: nat, x: int, y: int)
    requires -1 <= col < oldLen && colNew == newLen - 1 - KeptFrom(del, col + 1, oldLen)
    requires !(x == rowNew && TailStart(del, oldLen, newLen) <= y < newLen)
    ensures MoveCols(g, del, row, col, rowNew, colNew)(x, y)
         == if x == row && y <= col && Visited(del, y, oldLen, newLen) then 0 else g(x, y)
    decreases col + 1
  {
    hide KeptFrom, TailStart;
    if col >= 0 && colNew < 0 {
      if y <= col { VisitsEnd(del, col, y, oldLen, newLen); }
    } else if col >= 0 {
      KeptStep(del, col, oldLen);
      if col in del {
        ColsOutside(Put(g, row, col, 0), del, row, col - 1, rowNew, colNew, oldLen, newLen, x, y);
      } else {
        UsedIsTail(del, col, oldLen, newLen);
        ColsOutside(MoveCell(g, row, col, rowNew, colNew), del, row, col - 1, rowNew, colNew - 1, oldLen, newLen, x, y);
      }
    }
  }

  lemma {:induction false} RowsOutside(g: Grid, del: seq<int>, row: int, rowNew: int, oldLen: nat, newLen: nat,
      wipe: Wipe,
      x: int, y: int)
    requires -1 <= row < oldLen && rowNew == newLen - 1 - KeptFrom(del, row + 1, oldLen)
    requires !InTail(del, oldLen, newLen, x, y)
    ensures MoveRows(g, del, row, rowNew, oldLen, newLen, wipe)(x, y)
         == if x <= row then Leftover(g, del, oldLen, newLen, wipe, x, y) else g(x, y)
    decreases row + 1
  {
    hide KeptFrom, MoveCols, TailStart;
    if row >= 0 && rowNew < 0 {
      if x <= row { VisitsEnd(del, row, x, oldLen, newLen); }
    } else if row >= 0 {
      KeptStep(del, row, oldLen);
      if row in del {
        RowsOutside(WipeRow(g, row, oldLen, wipe), del, row - 1, rowNew, oldLen, newLen, wipe, x, y);
      } else {
        KeptBase(del, oldLen);
        UsedIsTail(del, row, oldLen, newLen);
        ColsOutside(g, del, row, oldLen - 1, rowNew, newLen - 1, oldLen, newLen, x, y);
        var after := MoveCols(g, del, row, oldLen - 1, rowNew, newLen - 1);
        RowsOutside(after, del, row - 1, rowNew - 1, oldLen, newLen, wipe, x, y);
      }
    }
  }

  /** Every cell outside the square of kept pairs. */
  lemma OutsideTail(g: Grid, del: seq<int>, oldLen: nat, newLen: nat, wipe: Wipe, x: int, y: int)
    requires !InTail(del, oldLen, newLen, x, y)
    ensures InPlace(g, del, oldLen, newLen, wipe)(x, y) == Leftover(g, del, oldLen, newLen, wipe, x, y)
  {
    hide KeptFrom, MoveRows, TailStart;
    KeptBase(del, oldLen);
    RowsOutside(g, del, oldLen - 1, newLen - 1, oldLen, newLen, wipe, x, y);
  }

  // ---- pairs with a new access point --------------------------------------------------------------------

  /** A pair of the new list with at least one position no kept access point moved to. */
  ghost predicate NewPair(del: seq<int>, oldLen: nat, newLen: nat, x: int, y: int) {
    var first := TailStart(del, oldLen, newLen);
    0 <= x < newLen && 0 <= y < newLen && (x < first || y < first)
  }

  ghost predicate NewPairsZero(after: Grid, del: seq<int>, oldLen: nat, newLen: nat) {
    forall x, y :: NewPair(del, oldLen, newLen, x, y) ==> after(x, y) == 0
  }

  /** All signals lie inside the old list. */
  ghost predicate InsideOld(g: Grid, oldLen: nat) {
    forall x: int, y: int :: !(0 <= x < oldLen && 0 <= y < oldLen) ==> g(x, y) == 0
  }

  /** The memset clears every cell of a deleted row that becomes a pair with a new access point. */
  ghost predicate WipesNewPairs(del: seq<int>, oldLen: nat, newLen: nat, wipe: Wipe) {
    forall x, y, v: nat :: NewPair(del, oldLen, newLen, x, y) && x < oldLen && y < oldLen && x in del ==>
      wipe(y, v) == 0
  }

  lemma AllVisited(del: seq<int>, oldLen: nat, newLen: nat, x: int)
    requires TailStart(del, oldLen, newLen) > 0 && 0 <= x < oldLen
    ensures Visited(del, x, oldLen, newLen)
  {
    hide KeptFrom;
    KeptFromShrinks(del, 0, x + 1, oldLen);
  }

  /** The value of a pair with a new access point. */
  lemma NewPairValue(g: Grid, del: seq<int>, oldLen: nat, newLen: nat, wipe: Wipe, x: int, y: int)
    requires NewPair(del, oldLen, newLen, x, y)
    ensures InPlace(g, del, oldLen, newLen, wipe)(x, y)
         == if x < oldLen && y < oldLen then (if x in del then wipe(y, g(x, y)) else 0) else g(x, y)
  {
    hide KeptFrom, InPlace, TailStart;
    OutsideTail(g, del, oldLen, newLen, wipe, x, y);
    if x < oldLen { AllVisited(del, oldLen, newLen, x); }
    if y < oldLen { AllVisited(del, oldLen, newLen, y); }
  }

  /** New access points start without values, whatever the old ones, if and only if the memset reaches those cells. */
  lemma NewPairsZeroIff(del: seq<int>, oldLen: nat, newLen: nat, wipe: Wipe)
    requires ZeroStays(wipe)
    ensures (forall g: Grid :: InsideOld(g, oldLen) ==>
               NewPairsZero(InPlace(g, del, oldLen, newLen, wipe), del, oldLen, newLen))
       <==> WipesNewPairs(del, oldLen, newLen, wipe)
  {
    hide InPlace, NewPair;
    if WipesNewPairs(del, oldLen, newLen, wipe) {
      forall g: Grid | InsideOld(g, oldLen)
        ensures NewPairsZero(InPlace(g, del, oldLen, newLen, wipe), del, oldLen, newLen)
      {
        forall x, y | NewPair(del, oldLen, newLen, x, y) ensures InPlace(g, del, oldLen, newLen, wipe)(x, y) == 0 {
          NewPairValue(g, del, oldLen, newLen, wipe, x, y);
          NewPairInRange(del, oldLen, newLen, x, y);
        }
      }
    } else {
      var x, y, v: nat :| NewPair(del, oldLen, newLen, x, y) && x < oldLen && y < oldLen && x in del && wipe(y, v) != 0;
      var g := Single(x, y, v);
      NewPairInRange(del, oldLen, newLen, x, y);
      NewPairValue(g, del, oldLen, newLen, wipe, x, y);
      assert InsideOld(g, oldLen);
      assert !NewPairsZero(InPlace(g, del, oldLen, newLen, wipe), del, oldLen, newLen);
    }
  }

  lemma NewPairInRange(del: seq<int>, oldLen: nat, newLen: nat, x: int, y: int)
    requires NewPair(del, oldLen, newLen, x, y)
    ensures 0 <= x && 0 <= y
  {
  }

  /** A stale signal: of two access points the first is deleted and two are added; the new pair inherits a value. */
  lemma StaleSignal(g: Grid, partial: (nat, nat) -> nat, del: seq<int>, oldLen: nat, newLen: nat)
    requires del == [0] && oldLen == 2 && newLen == 3
    ensures NewPos(del, 0, oldLen, newLen) == 2
    ensures InPlace(g, del, oldLen, newLen, Memset(oldLen, 8, partial))(0, 1) == g(0, 1)
  {
    KeptBase(del, oldLen);
    KeptStep(del, 1, oldLen);
    KeptStep(del, 0, oldLen);
    hide KeptFrom, InPlace;
    OutsideTail(g, del, oldLen, newLen, Memset(oldLen, 8, partial), 0, 1);
  }
}
