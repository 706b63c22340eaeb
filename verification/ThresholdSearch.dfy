/** The search for a low signal threshold at which the access points can be coloured. */
module ThresholdSearch {
  import opened ChannelColouring
  import opened ChannelAssignment

  const RSSI_THRESHOLD_MINI: nat := 15
  const RSSI_THRESHOLD_MAX: nat := 100
  const RSSI_THRESHOLD_DELTA: nat := 20
  const RSSI_STOP_INTERVAL: nat := 5

  // ---- the largest signal -------------------------------------------------------------------

  ghost predicate Bounds(m: Matrix, n: nat, b: nat)
    requires Square(m, n)
  {
    forall u, v :: 0 <= u < n && 0 <= v < n ==> m[u][v] <= b
  }

  function MaxOf(s: seq<nat>): (b: nat)
    ensures forall i :: 0 <= i < |s| ==> s[i] <= b
  {
    if s == [] then 0
    else var b := MaxOf(s[..|s| - 1]); if s[|s| - 1] > b then s[|s| - 1] else b
  }

  lemma {:induction false} SomeBound(m: Matrix, n: nat, k: nat) returns (b: nat)
    requires Square(m, n) && k <= n
    ensures forall u, v :: 0 <= u < k && 0 <= v < n ==> m[u][v] <= b
    decreases k
  {
    b := 0;
    if k > 0 {
      var rest := SomeBound(m, n, k - 1);
      b := if MaxOf(m[k - 1]) > rest then MaxOf(m[k - 1]) else rest;
    }
  }

  lemma UncolourableIsBelow(kinds: seq<Kind>, rssi: Matrix, t: nat, b: nat)
    requires Square(rssi, |kinds|) && !Colourable(kinds, rssi, t) && Bounds(rssi, |kinds|, b)
    ensures t < b
  {
    if b <= t { ColourableAtTop(kinds, rssi, t); }
  }

  // ---- one adjustment of the search ---------------------------------------------------------

  /** The first try, the try at the maximum, the climb above it, and the bisection below it. */
  datatype Phase = First | Top | Climb | Bisect

  /** What is known about the thresholds tried so far. */
  ghost predicate Known(kinds: seq<Kind>, rssi: Matrix, phase: Phase, start: nat, end: nat, cur: nat)
    requires Square(rssi, |kinds|)
  {
    match phase
    case First => start == cur == 15 && end == 100
    case Top => start == 15 && end == cur == 100 && !Colourable(kinds, rssi, 15)
    case Climb =>
      end == 100 <= start && cur == start + 20 && (start - 100) % 20 == 0 && !Colourable(kinds, rssi, start)
    case Bisect =>
      && 15 <= start < end <= 100 && (start == 15 ==> end >= 17)
      && (cur == (start + end) / 2 || (cur == end == start + 1))
      && !Colourable(kinds, rssi, start) && Colourable(kinds, rssi, end)
  }

  ghost function Rank(phase: Phase): nat {
    match phase
    case First => 3
    case Top => 2
    case Climb => 1
    case Bisect => 0
  }

  ghost function Distance(phase: Phase, start: nat, end: nat, cur: nat, b: nat): int {
    if phase == Climb then b + 20 - cur else end - start
  }

  ghost function NextPhase(phase: Phase, found: bool): Phase {
    match phase
    case First => Top
    case Top => if found then Bisect else Climb
    case Climb => Climb
    case Bisect => Bisect
  }

  /** How the result relates to the lowest threshold that works. */
  ghost predicate NearLeast(kinds: seq<Kind>, rssi: Matrix, low: nat, t: nat)
    requires Square(rssi, |kinds|)
  {
    && 15 <= low <= t && Colourable(kinds, rssi, low)
    && (forall s :: 15 <= s < low ==> !Colourable(kinds, rssi, s))
    && (low <= 100 ==> t <= low + 1)
    && (low > 100 ==> t < low + 20 && t > 100 && (t - 100) % 20 == 0)
  }

  lemma {:induction false} LeastFrom(kinds: seq<Kind>, rssi: Matrix, lo: nat, t: nat) returns (low: nat)
    requires Square(rssi, |kinds|) && lo <= t && Colourable(kinds, rssi, t)
    ensures lo <= low <= t && Colourable(kinds, rssi, low)
    ensures forall s :: lo <= s < low ==> !Colourable(kinds, rssi, s)
    decreases t - lo
  {
    hide Colourable;
    if Colourable(kinds, rssi, lo) {
      low := lo;
    } else {
      low := LeastFrom(kinds, rssi, lo + 1, t);
    }
  }

  lemma WorksAbove(kinds: seq<Kind>, rssi: Matrix, start: nat, low: nat)
    requires Square(rssi, |kinds|) && !Colourable(kinds, rssi, start) && Colourable(kinds, rssi, low)
    ensures start < low
  {
    hide Colourable;
    if low <= start { PlanIsMonotone(kinds, rssi, low, start); }
  }

  /** The bounds when the search stops: nothing below 16, a climb step, or at most two above `start`. */
  lemma StopBounds(kinds: seq<Kind>, rssi: Matrix, phase: Phase, start: nat, end: nat, cur: nat)
    requires Square(rssi, |kinds|) && Known(kinds, rssi, phase, start, end, cur) && Colourable(kinds, rssi, cur)
    requires cur == 15 || end - start < 5
    ensures cur == 15 || (!Colourable(kinds, rssi, start) && start < cur)
    ensures
      || cur == 15
      || (15 < cur <= 100 && cur <= start + 2)
      || (start >= 100 && cur == start + 20 && (cur - 100) % 20 == 0)
  {
    hide Colourable;
  }

  /** Where the search stops, the threshold is at or just above the lowest that works. */
  lemma StopsNearLeast(kinds: seq<Kind>, rssi: Matrix, phase: Phase, start: nat, end: nat, cur: nat) returns (low: nat)
    requires Square(rssi, |kinds|) && Known(kinds, rssi, phase, start, end, cur) && Colourable(kinds, rssi, cur)
    requires cur == 15 || end - start < 5
    ensures NearLeast(kinds, rssi, low, cur)
  {
    assert cur >= 15;
    StopBounds(kinds, rssi, phase, start, end, cur);
    hide Colourable, Known;
    low := LeastFrom(kinds, rssi, 15, cur);
    if cur != 15 { WorksAbove(kinds, rssi, start, low); }
  }

  /** A step of the search that keeps `phase` or goes to a later one, and comes closer to its end. */
  ghost predicate Closer(phase: Phase, start: nat, end: nat, cur: nat,
      phase': Phase, start': nat, end': nat, cur': nat, b: nat) {
    || Rank(phase') < Rank(phase)
    || (phase' == phase && 0 <= Distance(phase', start', end', cur', b) < Distance(phase, start, end, cur, b))
    || (phase' == phase && Distance(phase', start', end', cur', b) == Distance(phase, start, end, cur, b) >= 0
        && cur' == end' && cur != end)
  }

  /**
   * The body of the loop after a search at `cur`. When it stops, `cur` is at or just above the lowest threshold that
   * works; otherwise the new bounds still enclose that threshold, and the search is closer to its end.
   */
  method Adjust(found: bool, start: nat, end: nat, cur: nat,
      ghost kinds: seq<Kind>, ghost rssi: Matrix, ghost phase: Phase, ghost b: nat)
    returns (stop: bool, start': nat, end': nat, cur': nat)
    requires Square(rssi, |kinds|) && Bounds(rssi, |kinds|, b) && Known(kinds, rssi, phase, start, end, cur)
    requires found <==> Colourable(kinds, rssi, cur)
    ensures stop ==> found && exists low :: NearLeast(kinds, rssi, low, cur)
    ensures !stop ==> Known(kinds, rssi, NextPhase(phase, found), start', end', cur')
    ensures !stop ==> Closer(phase, start, end, cur, NextPhase(phase, found), start', end', cur', b)
  {
    hide Colourable, NearLeast, Known, Closer, Bounds;
    stop, start', end', cur' := false, start, end, cur;
    KnownFrom15(kinds, rssi, phase, start, end, cur);
    if !found {
      if cur == RSSI_THRESHOLD_MINI {
        cur' := RSSI_THRESHOLD_MAX;
      } else if cur >= RSSI_THRESHOLD_MAX {
        start' := cur;
        cur' := cur + RSSI_THRESHOLD_DELTA;
      } else if cur > RSSI_THRESHOLD_MINI && cur < RSSI_THRESHOLD_MAX {
        if start == cur {
          cur' := end;
        } else {
          start' := cur;
          cur' := (start' + end) / 2;
        }
      }
      FailureKeepsKnown(kinds, rssi, phase, start, end, cur, b, start', cur');
    } else {
      if cur == RSSI_THRESHOLD_MINI || end - start < RSSI_STOP_INTERVAL {
        stop := true;
        ghost var low := StopsNearLeast(kinds, rssi, phase, start, end, cur);
        return;
      }
      end' := cur;
      cur' := (start + end') / 2;
      SuccessKeepsKnown(kinds, rssi, phase, start, end, cur, b, cur');
    }
  }

  lemma KnownFrom15(kinds: seq<Kind>, rssi: Matrix, phase: Phase, start: nat, end: nat, cur: nat)
    requires Square(rssi, |kinds|) && Known(kinds, rssi, phase, start, end, cur)
    ensures cur >= 15
  {
    hide Colourable;
  }

  lemma SuccessKeepsKnown(kinds: seq<Kind>, rssi: Matrix, phase: Phase, start: nat, end: nat, cur: nat, b: nat,
      cur': nat)
    requires Square(rssi, |kinds|) && Known(kinds, rssi, phase, start, end, cur) && Colourable(kinds, rssi, cur)
    requires cur != 15 && end - start >= 5 && cur' == (start + cur) / 2
    ensures Known(kinds, rssi, NextPhase(phase, true), start, cur, cur')
    ensures Closer(phase, start, end, cur, NextPhase(phase, true), start, cur, cur', b)
  {
    hide Colourable;
  }

  lemma FailureKeepsKnown(kinds: seq<Kind>, rssi: Matrix, phase: Phase, start: nat, end: nat, cur: nat, b: nat,
      start': nat, cur': nat)
    requires Square(rssi, |kinds|) && Known(kinds, rssi, phase, start, end, cur) && !Colourable(kinds, rssi, cur)
    requires Bounds(rssi, |kinds|, b)
    requires cur == 15 ==> start' == start && cur' == 100
    requires cur >= 100 ==> start' == cur && cur' == cur + 20
    requires 15 < cur < 100 && start == cur ==> start' == start && cur' == end
    requires 15 < cur < 100 && start != cur ==> start' == cur && cur' == (cur + end) / 2
    ensures Known(kinds, rssi, NextPhase(phase, false), start', end, cur')
    ensures Closer(phase, start, end, cur, NextPhase(phase, false), start', end, cur', b)
  {
    UncolourableIsBelow(kinds, rssi, cur, b);
    hide Colourable, Bounds;
  }

  /**
   * The calculation loop: whatever the signals, it ends with a plan at its threshold, which is at most one above
   * the lowest that works (counting from 15), or, when that exceeds 100, the next multiple of 20 steps above 100.
   * The threshold never exceeds 100 by more than a step above the largest signal.
   */
  method ChooseThreshold(head: Head) returns (ghost low: nat)
    requires head.Ready()
    modifies head, head.colours, head.rfaTemp.score, head.rfaTemp.ch, head.Options(), head.adjacent
    ensures head.Ready() && head.CandidatesKept(0)
    ensures head.Assigns(head.colours[..|head.nodes|], head.threshold)
    ensures 15 <= low <= head.threshold && head.Assignable(low) && forall t :: 15 <= t < low ==> !head.Assignable(t)
    ensures low <= 100 ==> head.threshold <= low + 1
    ensures low > 100 ==> 100 < head.threshold < low + 20 && (head.threshold - 100) % 20 == 0
    ensures forall b: nat :: Bounds(head.Signals(), |head.nodes|, b) ==>
      head.threshold <= 100 || head.threshold < b + 20
  {
    hide Colourable, Plan, Known, NearLeast, Bounds;
    low := Calculate(head);
    head.PlanIsAssignment(head.colours[..|head.nodes|], head.threshold);
    LeastAssignable(head, low);
  }

  lemma LeastAssignable(head: Head, low: nat)
    requires head.Ready() && NearLeast(head.Kinds(), head.Signals(), low, head.threshold)
    ensures 15 <= low <= head.threshold && head.Assignable(low) && forall t :: 15 <= t < low ==> !head.Assignable(t)
    ensures low <= 100 ==> head.threshold <= low + 1
    ensures low > 100 ==> 100 < head.threshold < low + 20 && (head.threshold - 100) % 20 == 0
  {
    var kinds, rssi := head.Kinds(), head.Signals();
    hide Colourable;
    forall t: nat ensures Colourable(kinds, rssi, t) <==> head.Assignable(t) { head.ColourableIsAssignable(t); }
  }

  /** The loop, with its result over the kinds of the nodes. */
  method Calculate(head: Head) returns (ghost low: nat)
    requires head.Ready()
    modifies head, head.colours, head.rfaTemp.score, head.rfaTemp.ch, head.Options(), head.adjacent
    ensures head.Ready() && head.CandidatesKept(0)
    ensures Plan(head.Kinds(), head.Signals(), head.threshold, head.colours[..|head.nodes|])
    ensures NearLeast(head.Kinds(), head.Signals(), low, head.threshold)
    ensures forall b: nat :: Bounds(head.Signals(), |head.nodes|, b) ==>
      head.threshold <= 100 || head.threshold < b + 20
  {
    hide Colourable, Plan, Known, NearLeast;
    ghost var kinds, rssi := head.Kinds(), head.Signals();
    ghost var b := SomeBound(rssi, |kinds|, |kinds|);
    assert Bounds(rssi, |kinds|, b);
    hide Bounds;
    ghost var phase := First;
    var start, end := RSSI_THRESHOLD_MINI, RSSI_THRESHOLD_MAX;
    head.threshold := start;
    KnownAtFirst(kinds, rssi);
    while true
      invariant head.Ready() && head.CandidatesKept(0) && head.Signals() == rssi
      invariant Known(kinds, rssi, phase, start, end, head.threshold)
      decreases Rank(phase), Distance(phase, start, end, head.threshold, b), if head.threshold == end then 0 else 1
    {
      var stop, start', end', cur', found := Pass(head, start, end, kinds, rssi, phase, b);
      if stop {
        low :| NearLeast(kinds, rssi, low, head.threshold);
        ThresholdBound(kinds, rssi, phase, start, end, head.threshold);
        return;
      }
      phase := NextPhase(phase, found);
      start, end, head.threshold := start', end', cur';
    }
  }

  /** One pass: the search at the current threshold and the adjustment after it. */
  method Pass(head: Head, start: nat, end: nat,
      ghost kinds: seq<Kind>, ghost rssi: Matrix, ghost phase: Phase, ghost b: nat)
    returns (stop: bool, start': nat, end': nat, cur': nat, found: bool)
    requires head.Ready() && kinds == head.Kinds() && rssi == head.Signals() && Bounds(rssi, |kinds|, b)
    requires Known(kinds, rssi, phase, start, end, head.threshold)
    modifies head, head.colours, head.rfaTemp.score, head.rfaTemp.ch, head.Options(), head.adjacent
    ensures head.Ready() && head.CandidatesKept(0) && head.threshold == old(head.threshold)
    ensures stop ==> Plan(kinds, rssi, head.threshold, head.colours[..|head.nodes|])
    ensures stop ==> exists low :: NearLeast(kinds, rssi, low, head.threshold)
    ensures !stop ==> Known(kinds, rssi, NextPhase(phase, found), start', end', cur')
    ensures !stop ==> Closer(phase, start, end, head.threshold, NextPhase(phase, found), start', end', cur', b)
  {
    hide Colourable, Plan, Known, NearLeast, Bounds, Closer;
    head.Evaluate(head.threshold);
    found := head.schemeCnt != 0;
    stop, start', end', cur' := Adjust(found, start, end, head.threshold, kinds, rssi, phase, b);
  }

  lemma KnownAtFirst(kinds: seq<Kind>, rssi: Matrix)
    requires Square(rssi, |kinds|)
    ensures Known(kinds, rssi, First, 15, 100, 15)
  {
  }

  lemma ThresholdBound(kinds: seq<Kind>, rssi: Matrix, phase: Phase, start: nat, end: nat, cur: nat)
    requires Square(rssi, |kinds|) && Known(kinds, rssi, phase, start, end, cur)
    ensures forall b: nat :: Bounds(rssi, |kinds|, b) ==> cur <= 100 || cur < b + 20
  {
    hide Colourable, Bounds;
    forall b: nat | Bounds(rssi, |kinds|, b) ensures cur <= 100 || cur < b + 20 {
      if phase == Climb { UncolourableIsBelow(kinds, rssi, start, b); }
    }
  }
}
