/** The Berkeley tail queue: a forward list whose back pointers name the cell that points at an element. */
module TailQueue {

  /**
   * A list head or the queue entry of an element; both have the same two fields, and the LAST and PREV
   * casts read one as the other. For a head, `next` is tqh_first and `back` is tqh_last; for an entry they
   * are tqe_next and tqe_prev. `back` stands for the address of the `next` field of the cell it names.
   */
  class Cell {
    var next: Cell?
    var back: Cell?

    constructor ()
      ensures next == null && back == null
    {
      next, back := null, null;
    }
  }

  ghost predicate Distinct(s: seq<Cell>) {
    forall i, j :: 0 <= i < j < |s| ==> s[i] != s[j]
  }

  /** The ring of cells: the head, then the elements in order. */
  ghost function Ring(head: Cell, q: seq<Cell>): (r: seq<Cell>)
    ensures |r| == |q| + 1 && r[0] == head
  {
    [head] + q
  }

  /** The cells of `r` are linked forward up to null, and backward in a circle. */
  ghost predicate Linked(r: seq<Cell>)
    requires |r| > 0
    reads r
  {
    && Distinct(r)
    && (forall i :: 0 <= i < |r| - 1 ==> r[i].next == r[i + 1])
    && r[|r| - 1].next == null
    && (forall i :: 0 < i < |r| ==> r[i].back == r[i - 1])
    && r[0].back == r[|r| - 1]
  }

  /** `head` is a well-formed queue whose elements are `q`, in order. */
  ghost predicate Queue(head: Cell, q: seq<Cell>)
    reads head, q
  {
    Linked(Ring(head, q))
  }

  function Reverse<T>(s: seq<T>): (r: seq<T>)
    ensures |r| == |s|
    ensures forall i :: 0 <= i < |s| ==> r[i] == s[|s| - 1 - i]
  {
    if s == [] then [] else Reverse(s[1..]) + [s[0]]
  }

  // ---- access -----------------------------------------------------------------------------

  predicate Empty(head: Cell)
    reads head
  {
    head.next == null
  }

  method First(head: Cell, ghost q: seq<Cell>) returns (c: Cell?)
    requires Queue(head, q)
    ensures c == if q == [] then null else q[0]
  {
    ghost var r := Ring(head, q);
    c := head.next;
    assert q != [] ==> r[0].next == r[1];
    assert q == [] ==> r[|r| - 1].next == null;
  }

  /** TAILQ_LAST: follow the head's back pointer, read that cell as a head, and follow twice. */
  method Last(head: Cell, ghost q: seq<Cell>) returns (c: Cell?)
    requires Queue(head, q)
    ensures c == if q == [] then null else q[|q| - 1]
  {
    ghost var r := Ring(head, q);
    ghost var n := |r| - 1;
    assert r[0].back == r[n];
    assert n > 0 ==> r[n].back == r[n - 1] && r[n - 1].next == r[n] && r[n] == q[n - 1];
    c := head.back.back.next;
  }

  method Next(elm: Cell, ghost head: Cell, ghost q: seq<Cell>, ghost i: nat) returns (c: Cell?)
    requires Queue(head, q) && i < |q| && elm == q[i]
    ensures c == if i + 1 < |q| then q[i + 1] else null
  {
    ghost var r := Ring(head, q);
    assert elm == r[i + 1];
    assert i + 1 < |q| ==> r[i + 1].next == r[i + 2];
    c := elm.next;
  }

  /** TAILQ_PREV: the back pointer may name the head, which is then read as an entry. */
  method Prev(elm: Cell, ghost head: Cell, ghost q: seq<Cell>, ghost i: nat) returns (c: Cell?)
    requires Queue(head, q) && i < |q| && elm == q[i]
    ensures c == if i == 0 then null else q[i - 1]
  {
    ghost var r := Ring(head, q);
    ghost var n := |r| - 1;
    assert elm == r[i + 1] && r[i + 1].back == r[i];
    if i > 0 {
      assert r[i].back == r[i - 1] && r[i - 1].next == r[i] && r[i] == q[i - 1];
    } else {
      assert r[0].back == r[n] && r[n].next == null;
    }
    c := elm.back.back.next;
  }

  // ---- traversal --------------------------------------------------------------------------

  /** TAILQ_FOREACH visits the elements in order. */
  method Forward(head: Cell, ghost q: seq<Cell>) returns (visited: seq<Cell>)
    requires Queue(head, q)
    ensures visited == q
  {
    visited := [];
    var c := First(head, q);
    while c != null
      invariant |visited| <= |q| && visited == q[..|visited|]
      invariant c == if |visited| < |q| then q[|visited|] else null
      decreases |q| - |visited|
    {
      visited := visited + [c];
      c := Next(c, head, q, |visited| - 1);
    }
  }

  /** TAILQ_FOREACH_REVERSE visits them in reverse order. */
  method Backward(head: Cell, ghost q: seq<Cell>) returns (visited: seq<Cell>)
    requires Queue(head, q)
    ensures visited == Reverse(q)
  {
    visited := [];
    ghost var left := |q|;
    var c := Last(head, q);
    while c != null
      invariant 0 <= left <= |q| && visited == Reverse(q)[..|q| - left]
      invariant c == if left > 0 then q[left - 1] else null
      decreases left
    {
      visited := visited + [c];
      c := Prev(c, head, q, left - 1);
      left := left - 1;
    }
  }

  /** The pointers determine the elements. */
  lemma {:induction false} QueueIsUnique(head: Cell, p: seq<Cell>, q: seq<Cell>)
    requires Queue(head, p) && Queue(head, q)
    ensures p == q
  {
    var r, s := Ring(head, p), Ring(head, q);
    SamePrefix(r, s, |r| - 1);
    SamePrefix(s, r, |s| - 1);
    assert r == r[..|r|] && s == s[..|s|];
    assert p == r[1..] && q == s[1..];
  }

  lemma {:induction false} SamePrefix(r: seq<Cell>, s: seq<Cell>, i: nat)
    requires |r| > 0 && |s| > 0 && Linked(r) && Linked(s) && r[0] == s[0] && i < |r|
    ensures i < |s| && r[..i + 1] == s[..i + 1]
  {
    if i > 0 {
      SamePrefix(r, s, i - 1);
      assert r[i - 1] == r[..i][i - 1] == s[..i][i - 1] == s[i - 1];
      assert r[i - 1].next == r[i];
      assert i < |s| && s[i - 1].next == s[i];
      assert r[..i + 1] == r[..i] + [r[i]] && s[..i + 1] == s[..i] + [s[i]];
    }
  }

  // ---- updates ----------------------------------------------------------------------------

  method Init(head: Cell)
    modifies head
    ensures Queue(head, [])
  {
    head.next := null;
    head.back := head;
  }

  /** Elements a queue of `head` and `q` may still take in. */
  ghost predicate Outside(head: Cell, q: seq<Cell>, elm: Cell) {
    elm != head && elm !in q
  }

  method InsertHead(head: Cell, elm: Cell, ghost q: seq<Cell>)
    requires Queue(head, q) && Outside(head, q, elm)
    modifies head, elm, q
    ensures Queue(head, [elm] + q)
  {
    ghost var r := Ring(head, q);
    assert q != [] ==> r[0].next == r[1];
    assert q == [] ==> r[|r| - 1].next == null;
    elm.next := head.next;
    if elm.next != null {
      head.next.back := elm;
    } else {
      head.back := elm;
    }
    head.next := elm;
    elm.back := head;
    assert Ring(head, [elm] + q) == [head, elm] + r[1..];
  }

  method InsertTail(head: Cell, elm: Cell, ghost q: seq<Cell>)
    requires Queue(head, q) && Outside(head, q, elm)
    modifies head, elm, q
    ensures Queue(head, q + [elm])
  {
    ghost var r := Ring(head, q);
    assert r[0].back == r[|r| - 1];
    elm.next := null;
    elm.back := head.back;
    head.back.next := elm;
    head.back := elm;
    assert Ring(head, q + [elm]) == r + [elm];
  }

  /** `r` is linked except around position k, where `elm` has been tied in. */
  ghost predicate TiedIn(r: seq<Cell>, elm: Cell, k: nat)
    requires 0 < k <= |r|
    reads r, elm
  {
    && Distinct(r) && elm !in r
    && (forall i :: 0 <= i < |r| - 1 && i != k - 1 ==> r[i].next == r[i + 1])
    && (forall i :: 0 < i < |r| && i != k ==> r[i].back == r[i - 1])
    && r[k - 1].next == elm && elm.back == r[k - 1]
    && (if k < |r| then elm.next == r[k] && r[k].back == elm && r[|r| - 1].next == null && r[0].back == r[|r| - 1]
        else elm.next == null && r[0].back == elm)
  }

  lemma TiedInIsLinked(r: seq<Cell>, elm: Cell, k: nat, t: seq<Cell>)
    requires 0 < k <= |r| && TiedIn(r, elm, k) && t == r[..k] + [elm] + r[k..]
    ensures Linked(t)
  {
    forall i | 0 <= i < |t| - 1 ensures t[i].next == t[i + 1] {
      if i < k - 1 { assert r[i].next == r[i + 1]; }
      if i > k { assert r[i - 1].next == r[i]; }
    }
    forall i | 0 < i < |t| ensures t[i].back == t[i - 1] {
      if i < k { assert r[i].back == r[i - 1]; }
      if i > k + 1 { assert r[i - 1].back == r[i - 2]; }
    }
  }

  method InsertAfter(head: Cell, listelm: Cell, elm: Cell, ghost q: seq<Cell>, ghost i: nat)
    requires Queue(head, q) && Outside(head, q, elm) && i < |q| && listelm == q[i]
    modifies head, elm, q
    ensures Queue(head, q[..i + 1] + [elm] + q[i + 1..])
  {
    ghost var r := Ring(head, q);
    assert listelm == r[i + 1];
    assert i + 2 < |r| ==> r[i + 1].next == r[i + 2];
    assert i + 2 == |r| ==> r[i + 1].next == null;
    elm.next := listelm.next;
    if elm.next != null {
      elm.next.back := elm;
    } else {
      head.back := elm;
    }
    listelm.next := elm;
    elm.back := listelm;
    assert Ring(head, q[..i + 1] + [elm] + q[i + 1..]) == r[..i + 2] + [elm] + r[i + 2..];
    TiedInIsLinked(r, elm, i + 2, r[..i + 2] + [elm] + r[i + 2..]);
  }

  method InsertBefore(listelm: Cell, elm: Cell, ghost head: Cell, ghost q: seq<Cell>, ghost i: nat)
    requires Queue(head, q) && Outside(head, q, elm) && i < |q| && listelm == q[i]
    modifies head, elm, q
    ensures Queue(head, q[..i] + [elm] + q[i..])
  {
    ghost var r := Ring(head, q);
    assert listelm == r[i + 1] && r[i + 1].back == r[i];
    elm.back := listelm.back;
    elm.next := listelm;
    listelm.back.next := elm;
    listelm.back := elm;
    assert Ring(head, q[..i] + [elm] + q[i..]) == r[..i + 1] + [elm] + r[i + 1..];
    TiedInIsLinked(r, elm, i + 1, r[..i + 1] + [elm] + r[i + 1..]);
  }

  /** `r` is linked except that its neighbours pass over position k. */
  ghost predicate CutOut(r: seq<Cell>, k: nat)
    requires 0 < k < |r|
    reads r
  {
    && Distinct(r)
    && (forall i :: 0 <= i < |r| - 1 && i != k - 1 && i != k ==> r[i].next == r[i + 1])
    && (forall i :: 0 < i < |r| && i != k && i != k + 1 ==> r[i].back == r[i - 1])
    && (if k + 1 < |r|
        then r[k - 1].next == r[k + 1] && r[k + 1].back == r[k - 1]
          && r[|r| - 1].next == null && r[0].back == r[|r| - 1]
        else r[k - 1].next == null && r[0].back == r[k - 1])
  }

  lemma CutOutIsLinked(r: seq<Cell>, k: nat, t: seq<Cell>)
    requires 0 < k < |r| && CutOut(r, k) && t == r[..k] + r[k + 1..]
    ensures Linked(t)
  {
    forall i | 0 <= i < |t| - 1 ensures t[i].next == t[i + 1] {
      if i < k - 1 { assert r[i].next == r[i + 1]; }
      if i >= k { assert r[i + 1].next == r[i + 2]; }
    }
    forall i | 0 < i < |t| ensures t[i].back == t[i - 1] {
      if i < k { assert r[i].back == r[i - 1]; }
      if i > k { assert r[i + 1].back == r[i]; }
    }
  }

  method Remove(head: Cell, elm: Cell, ghost q: seq<Cell>, ghost i: nat)
    requires Queue(head, q) && i < |q| && elm == q[i]
    modifies head, q
    ensures Queue(head, q[..i] + q[i + 1..])
    ensures elm.next == old(elm.next) && elm.back == old(elm.back)
  {
    ghost var r := Ring(head, q);
    assert elm == r[i + 1] && r[i + 1].back == r[i];
    assert i + 2 < |r| ==> r[i + 1].next == r[i + 2];
    assert i + 2 == |r| ==> r[i + 1].next == null;
    if elm.next != null {
      elm.next.back := elm.back;
    } else {
      head.back := elm.back;
    }
    elm.back.next := elm.next;
    assert Ring(head, q[..i] + q[i + 1..]) == r[..i + 1] + r[i + 2..];
    CutOutIsLinked(r, i + 1, r[..i + 1] + r[i + 2..]);
  }

  lemma DisjointRings(r: seq<Cell>, s: seq<Cell>)
    requires Distinct(r) && Distinct(s) && |s| > 0 && forall c :: c in r ==> c !in s
    ensures Distinct(r + s[1..]) && forall i, j :: 0 <= i < |r| && 0 <= j < |s| ==> r[i] != s[j]
  {
    forall i, j | 0 <= i < |r| && 0 <= j < |s| ensures r[i] != s[j] { assert r[i] in r && s[j] in s; }
  }

  /** The first ring goes on with the elements of the second. */
  ghost predicate Joined(r: seq<Cell>, s: seq<Cell>)
    requires |r| > 0 && |s| > 1
    reads r, s
  {
    && Distinct(r + s[1..])
    && (forall i :: 0 <= i < |r| - 1 ==> r[i].next == r[i + 1])
    && (forall i :: 0 < i < |r| ==> r[i].back == r[i - 1])
    && r[|r| - 1].next == s[1] && s[1].back == r[|r| - 1] && r[0].back == s[|s| - 1]
    && (forall i :: 1 <= i < |s| - 1 ==> s[i].next == s[i + 1])
    && (forall i :: 1 < i < |s| ==> s[i].back == s[i - 1])
    && s[|s| - 1].next == null
  }

  lemma JoinedIsLinked(r: seq<Cell>, s: seq<Cell>, t: seq<Cell>)
    requires |r| > 0 && |s| > 1 && Joined(r, s) && t == r + s[1..]
    ensures Linked(t)
  {
    forall i | 0 <= i < |t| - 1 ensures t[i].next == t[i + 1] {
      if i < |r| - 1 { assert r[i].next == r[i + 1]; }
      if i >= |r| { assert s[i - |r| + 1].next == s[i - |r| + 2]; }
    }
    forall i | 0 < i < |t| ensures t[i].back == t[i - 1] {
      if i < |r| { assert r[i].back == r[i - 1]; }
      if i > |r| { assert s[i - |r| + 1].back == s[i - |r|]; }
    }
  }

  /** TAILQ_CONCAT moves all elements of the second queue behind those of the first. */
  method Concat(head1: Cell, head2: Cell, ghost p: seq<Cell>, ghost q: seq<Cell>)
    requires Queue(head1, p) && Queue(head2, q)
    requires forall c :: c in Ring(head1, p) ==> c !in Ring(head2, q)
    modifies head1, head2, p, q
    ensures Queue(head1, p + q) && Queue(head2, [])
  {
    ghost var r, s := Ring(head1, p), Ring(head2, q);
    assert r[0].back == r[|r| - 1] && s[0].back == s[|s| - 1];
    assert |s| > 1 ==> s[0].next == s[1];
    DisjointRings(r, s);
    if !Empty(head2) {
      head1.back.next := head2.next;
      head2.next.back := head1.back;
      head1.back := head2.back;
      Init(head2);
      assert Ring(head1, p + q) == r + s[1..];
      JoinedIsLinked(r, s, r + s[1..]);
    } else {
      assert p + q == p;
    }
  }

  // ---- every run of updates -----------------------------------------------------------------

  datatype Op =
    | AtHead(elm: Cell)
    | AtTail(elm: Cell)
    | After(at: Cell, elm: Cell)
    | Before(at: Cell, elm: Cell)
    | Drop(elm: Cell)

  ghost function IndexOf(q: seq<Cell>, c: Cell): (i: nat)
    requires c in q
    ensures i < |q| && q[i] == c
  {
    if q[0] == c then 0 else 1 + IndexOf(q[1..], c)
  }

  /** New elements come from outside the queue; reference and removed elements from inside. */
  ghost predicate Allowed(head: Cell, q: seq<Cell>, op: Op) {
    && (op.After? || op.Before? ==> op.at in q)
    && if op.Drop? then op.elm in q else Outside(head, q, op.elm)
  }

  /** The operation on the sequence of elements. */
  ghost function Apply(q: seq<Cell>, op: Op): (q': seq<Cell>)
    requires op.After? || op.Before? ==> op.at in q
    requires op.Drop? ==> op.elm in q
  {
    match op
    case AtHead(elm) => [elm] + q
    case AtTail(elm) => q + [elm]
    case After(at, elm) => var i := IndexOf(q, at); q[..i + 1] + [elm] + q[i + 1..]
    case Before(at, elm) => var i := IndexOf(q, at); q[..i] + [elm] + q[i..]
    case Drop(elm) => var i := IndexOf(q, elm); q[..i] + q[i + 1..]
  }

  method Step(head: Cell, op: Op, ghost q: seq<Cell>)
    requires Queue(head, q) && Allowed(head, q, op)
    modifies head, q, op.elm
    ensures Queue(head, Apply(q, op))
  {
    match op
    case AtHead(elm) => InsertHead(head, elm, q);
    case AtTail(elm) => InsertTail(head, elm, q);
    case After(at, elm) => InsertAfter(head, at, elm, q, IndexOf(q, at));
    case Before(at, elm) => InsertBefore(at, elm, head, q, IndexOf(q, at));
    case Drop(elm) => Remove(head, elm, q, IndexOf(q, elm));
  }

  lemma ApplyKeepsCells(q: seq<Cell>, op: Op)
    requires op.After? || op.Before? ==> op.at in q
    requires op.Drop? ==> op.elm in q
    ensures forall c :: c in Apply(q, op) ==> c in q || c == op.elm
  {
  }

  /** A step on one of two queues, or all elements of one moved behind those of the other. */
  datatype Move = OnFirst(op: Op) | OnSecond(op: Op) | SecondToFirst | FirstToSecond

  /** The elements of the two queues. */
  datatype Contents = Contents(p: seq<Cell>, q: seq<Cell>)

  ghost predicate Apart(h1: Cell, h2: Cell, k: Contents) {
    forall c :: c in Ring(h1, k.p) ==> c !in Ring(h2, k.q)
  }

  /** Two well-formed queues without a common cell. */
  ghost predicate Pair(h1: Cell, h2: Cell, k: Contents)
    reads h1, h2, k.p, k.q
  {
    Queue(h1, k.p) && Queue(h2, k.q) && Apart(h1, h2, k)
  }

  /** A new element comes from outside both queues. */
  ghost predicate MoveAllowed(h1: Cell, h2: Cell, k: Contents, m: Move) {
    match m
    case OnFirst(op) => Allowed(h1, k.p, op) && (op.Drop? || Outside(h2, k.q, op.elm))
    case OnSecond(op) => Allowed(h2, k.q, op) && (op.Drop? || Outside(h1, k.p, op.elm))
    case _ => true
  }

  ghost function ApplyMove(h1: Cell, h2: Cell, k: Contents, m: Move): (k': Contents)
    requires MoveAllowed(h1, h2, k, m)
  {
    match m
    case OnFirst(op) => Contents(Apply(k.p, op), k.q)
    case OnSecond(op) => Contents(k.p, Apply(k.q, op))
    case SecondToFirst => Contents(k.p + k.q, [])
    case FirstToSecond => Contents([], k.q + k.p)
  }

  ghost predicate AllAllowed(h1: Cell, h2: Cell, k: Contents, moves: seq<Move>)
    decreases |moves|
  {
    moves == [] ||
    (MoveAllowed(h1, h2, k, moves[0]) && AllAllowed(h1, h2, ApplyMove(h1, h2, k, moves[0]), moves[1..]))
  }

  ghost function ApplyAll(h1: Cell, h2: Cell, k: Contents, moves: seq<Move>): (k': Contents)
    requires AllAllowed(h1, h2, k, moves)
    decreases |moves|
  {
    if moves == [] then k else ApplyAll(h1, h2, ApplyMove(h1, h2, k, moves[0]), moves[1..])
  }

  /** All cells a run may touch. */
  ghost predicate Inside(cells: set<Cell>, h1: Cell, h2: Cell, k: Contents) {
    h1 in cells && h2 in cells && (forall c :: c in k.p ==> c in cells) && (forall c :: c in k.q ==> c in cells)
  }

  ghost predicate MoveInside(cells: set<Cell>, m: Move) {
    m.OnFirst? || m.OnSecond? ==> m.op.elm in cells
  }

  lemma MoveKeepsInside(cells: set<Cell>, h1: Cell, h2: Cell, k: Contents, m: Move)
    requires MoveAllowed(h1, h2, k, m) && Inside(cells, h1, h2, k) && MoveInside(cells, m)
    ensures Inside(cells, h1, h2, ApplyMove(h1, h2, k, m))
  {
    hide Apply;
    match m
    case OnFirst(op) => ApplyKeepsCells(k.p, op);
    case OnSecond(op) => ApplyKeepsCells(k.q, op);
    case _ =>
  }

  /** A step on one queue leaves the other alone. */
  method StepBeside(head: Cell, op: Op, other: Cell, ghost q: seq<Cell>, ghost rest: seq<Cell>)
    requires Queue(head, q) && Queue(other, rest) && Allowed(head, q, op)
    requires forall c :: c in Ring(head, q) ==> c !in Ring(other, rest)
    requires op.Drop? || Outside(other, rest, op.elm)
    modifies head, q, op.elm
    ensures Queue(head, Apply(q, op)) && Queue(other, rest)
    ensures forall c :: c in Ring(head, Apply(q, op)) ==> c !in Ring(other, rest)
  {
    hide Apply;
    ApplyKeepsCells(q, op);
    SeparateRings(head, q, other, rest);
    ghost var r := Ring(other, rest);
    forall i | 0 <= i < |r| ensures r[i] != head && r[i] !in q && r[i] != op.elm {
      if i > 0 { assert r[i] == rest[i - 1]; }
    }
    Step(head, op, q);
    assert Linked(r);
    SeparateCells(head, Apply(q, op), other, rest);
  }

  lemma HeadIsOutside(head: Cell, q: seq<Cell>)
    requires Queue(head, q)
    ensures head !in q
  {
    var r := Ring(head, q);
    forall i | 0 <= i < |q| ensures q[i] != head { assert r[0] != r[i + 1]; }
  }

  lemma SeparateRings(h1: Cell, p: seq<Cell>, h2: Cell, q: seq<Cell>)
    requires forall c :: c in Ring(h1, p) ==> c !in Ring(h2, q)
    ensures h1 != h2 && h1 !in q && h2 !in p && forall c :: c in p ==> c !in q
  {
    assert forall c :: c in p ==> c in Ring(h1, p);
    assert forall c :: c in q ==> c in Ring(h2, q);
    assert h1 in Ring(h1, p) && h2 in Ring(h2, q);
  }

  lemma SeparateCells(h1: Cell, p: seq<Cell>, h2: Cell, q: seq<Cell>)
    requires h1 != h2 && h1 !in q && h2 !in p && forall c :: c in p ==> c !in q
    ensures forall c :: c in Ring(h1, p) ==> c !in Ring(h2, q)
  {
  }

  /** Each move takes the two queues to the contents the move gives on sequences. */
  method Perform(h1: Cell, h2: Cell, m: Move, ghost k: Contents, ghost cells: set<Cell>)
    requires Pair(h1, h2, k) && MoveAllowed(h1, h2, k, m) && Inside(cells, h1, h2, k) && MoveInside(cells, m)
    modifies cells
    ensures Pair(h1, h2, ApplyMove(h1, h2, k, m))
  {
    hide Apply, Linked;
    match m
    case OnFirst(op) => StepBeside(h1, op, h2, k.p, k.q);
    case OnSecond(op) => StepBeside(h2, op, h1, k.q, k.p);
    case SecondToFirst =>
      SeparateRings(h1, k.p, h2, k.q);
      HeadIsOutside(h2, k.q);
      Concat(h1, h2, k.p, k.q);
      SeparateCells(h1, k.p + k.q, h2, []);
    case FirstToSecond =>
      SeparateRings(h1, k.p, h2, k.q);
      HeadIsOutside(h1, k.p);
      SeparateCells(h2, k.q, h1, k.p);
      Concat(h2, h1, k.q, k.p);
      SeparateCells(h1, [], h2, k.q + k.p);
  }

  /** The moves one after another. */
  method Play(h1: Cell, h2: Cell, moves: seq<Move>, ghost k: Contents, ghost cells: set<Cell>)
    requires Pair(h1, h2, k) && AllAllowed(h1, h2, k, moves)
    requires Inside(cells, h1, h2, k) && forall m :: m in moves ==> MoveInside(cells, m)
    modifies cells
    ensures Pair(h1, h2, ApplyAll(h1, h2, k, moves))
    decreases |moves|
  {
    hide Apply, Linked, Pair, Inside, MoveInside, MoveAllowed, ApplyMove;
    if moves != [] {
      MoveKeepsInside(cells, h1, h2, k, moves[0]);
      Perform(h1, h2, moves[0], k, cells);
      Play(h1, h2, moves[1..], ApplyMove(h1, h2, k, moves[0]), cells);
    }
  }

  /** Both traversals of both queues. */
  method VisitAll(h1: Cell, h2: Cell, ghost k: Contents)
    returns (forward1: seq<Cell>, backward1: seq<Cell>, forward2: seq<Cell>, backward2: seq<Cell>)
    requires Pair(h1, h2, k)
    ensures Pair(h1, h2, k) && Contents(forward1, forward2) == k
    ensures backward1 == Reverse(forward1) && backward2 == Reverse(forward2)
  {
    hide Reverse;
    forward1 := Forward(h1, k.p);
    backward1 := Backward(h1, k.p);
    forward2 := Forward(h2, k.q);
    backward2 := Backward(h2, k.q);
  }

  /**
   * From two initialised heads, any run of updates and concatenations takes both queues to the elements the
   * same run gives on sequences, and reverse traversal of each visits the reverse of forward traversal.
   */
  method Run(h1: Cell, h2: Cell, moves: seq<Move>, ghost cells: set<Cell>)
    returns (forward1: seq<Cell>, backward1: seq<Cell>, forward2: seq<Cell>, backward2: seq<Cell>)
    requires h1 != h2 && h1 in cells && h2 in cells && forall m :: m in moves ==> MoveInside(cells, m)
    requires AllAllowed(h1, h2, Contents([], []), moves)
    modifies cells
    ensures Pair(h1, h2, ApplyAll(h1, h2, Contents([], []), moves))
    ensures Contents(forward1, forward2) == ApplyAll(h1, h2, Contents([], []), moves)
    ensures backward1 == Reverse(forward1) && backward2 == Reverse(forward2)
  {
    Init(h1);
    Init(h2);
    ghost var none := Contents([], []);
    assert Pair(h1, h2, none);
    assert Inside(cells, h1, h2, none);
    hide Linked, Pair, Inside, MoveInside, AllAllowed, ApplyAll, Reverse;
    Play(h1, h2, moves, none, cells);
    forward1, backward1, forward2, backward2 := VisitAll(h1, h2, ApplyAll(h1, h2, none, moves));
  }
}
