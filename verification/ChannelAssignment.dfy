/** Dynamic channel assignment: backtracking search for a plan, and the search for a low threshold that has one. */
module ChannelAssignment {
  import opened ChannelColouring
  import opened ChannelOrder

  /** The n-by-n corner of a matrix in memory. */
  ghost function Values(m: array2<nat>, n: nat): (s: Matrix)
    requires n <= m.Length0 && n <= m.Length1
    reads m
    ensures Square(s, n) && forall i, j :: 0 <= i < n && 0 <= j < n ==> s[i][j] == m[i, j]
  {
    seq(n, i requires 0 <= i < n reads m => seq(n, j requires 0 <= j < n reads m => m[i, j]))
  }

  // ---- symmetrisation -----------------------------------------------------------------------

  /** The value both cells of a pair end up with: the one above the diagonal if it is positive, else the other. */
  ghost function Merged(s: Matrix, i: nat, j: nat): nat
    requires Square(s, |s|) && i < |s| && j < |s|
  {
    var lo, hi := if i < j then i else j, if i < j then j else i;
    if s[lo][hi] > 0 then s[lo][hi] else s[hi][lo]
  }

  ghost predicate Symmetric(s: Matrix)
    requires Square(s, |s|)
  {
    forall i, j :: 0 <= i < |s| && 0 <= j < |s| ==> s[i][j] == s[j][i]
  }

  /** Pairs visited before row i, column j. */
  ghost predicate Visited(a: nat, b: nat, i: nat, j: nat) {
    a < i || b < i || (a == i && b < j) || (b == i && a < j)
  }

  /** The corner while row i, column j is about to be visited. */
  ghost predicate PartlyMerged(p: array2<nat>, s: Matrix, i: nat, j: nat)
    requires Square(s, |s|) && |s| <= p.Length0 && |s| <= p.Length1
    reads p
  {
    forall a, b :: 0 <= a < |s| && 0 <= b < |s| ==>
      p[a, b] == if Visited(a, b, i, j) then Merged(s, a, b) else s[a][b]
  }

  ghost predicate AsymmetryVisited(s: Matrix, i: nat, j: nat)
    requires Square(s, |s|)
  {
    exists a, b :: 0 <= a < |s| && 0 <= b < |s| && Visited(a, b, i, j) && s[a][b] != s[b][a]
  }

  method MergePair(p: array2<nat>, i: nat, j: nat, ghost s: Matrix) returns (changed: bool)
    requires Square(s, |s|) && |s| <= p.Length0 && |s| <= p.Length1 && i < |s| && j < |s|
    requires PartlyMerged(p, s, i, j)
    modifies p
    ensures PartlyMerged(p, s, i, j + 1)
    ensures changed <==> !Visited(i, j, i, j) && s[i][j] != s[j][i]
  {
    assert p[i, j] == if Visited(i, j, i, j) then Merged(s, i, j) else s[i][j];
    assert p[j, i] == if Visited(j, i, i, j) then Merged(s, j, i) else s[j][i];
    changed := p[i, j] != p[j, i];
    if changed {
      if p[i, j] > 0 {
        p[j, i] := p[i, j];
      } else {
        p[i, j] := p[j, i];
      }
    }
  }

  lemma AsymmetryStep(s: Matrix, i: nat, j: nat)
    requires Square(s, |s|) && i < |s| && j < |s|
    ensures AsymmetryVisited(s, i, j + 1) <==>
      AsymmetryVisited(s, i, j) || (!Visited(i, j, i, j) && s[i][j] != s[j][i])
  {
    if !Visited(i, j, i, j) && s[i][j] != s[j][i] { assert Visited(i, j, i, j + 1); }
    if AsymmetryVisited(s, i, j) {
      var a, b :| 0 <= a < |s| && 0 <= b < |s| && Visited(a, b, i, j) && s[a][b] != s[b][a];
      assert Visited(a, b, i, j + 1);
    }
    if AsymmetryVisited(s, i, j + 1) {
      var a, b :| 0 <= a < |s| && 0 <= b < |s| && Visited(a, b, i, j + 1) && s[a][b] != s[b][a];
      assert Visited(a, b, i, j) || (a == i && b == j) || (a == j && b == i);
    }
  }

  lemma RowDone(s: Matrix, i: nat)
    requires Square(s, |s|) && i < |s|
    ensures forall a, b :: 0 <= a < |s| && 0 <= b < |s| ==> (Visited(a, b, i, |s|) <==> Visited(a, b, i + 1, 0))
    ensures AsymmetryVisited(s, i, |s|) <==> AsymmetryVisited(s, i + 1, 0)
  {
  }

  /** tMatrix2Symmetric on the n-by-n corner. */
  method Symmetrise(p: array2?<nat>, n: nat) returns (r: int)
    requires p != null ==> n <= p.Length0 && n <= p.Length1
    modifies p
    ensures p == null ==> r == -1
    ensures p != null ==>
      var before, after := old(Values(p, n)), Values(p, n);
      && (forall i, j :: 0 <= i < n && 0 <= j < n ==> after[i][j] == Merged(before, i, j))
      && (forall i, j :: 0 <= i <= j < n ==> after[i][j] == if before[i][j] > 0 then before[i][j] else before[j][i])
      && Symmetric(after) && (r == if Symmetric(before) then 0 else 1)
  {
    if p == null { return -1; }
    ghost var s := Values(p, n);
    var flag := false;
    assert PartlyMerged(p, s, 0, 0) && !AsymmetryVisited(s, 0, 0);
    hide Visited, Merged;
    for i := 0 to n
      invariant PartlyMerged(p, s, i, 0) && (flag <==> AsymmetryVisited(s, i, 0))
    {
      hide PartlyMerged, AsymmetryVisited;
      for j := 0 to n
        invariant PartlyMerged(p, s, i, j) && (flag <==> AsymmetryVisited(s, i, j))
      {
        AsymmetryStep(s, i, j);
        var changed := MergePair(p, i, j, s);
        if changed { flag := true; }
      }
      RowMerged(p, s, i);
    }
    AllMerged(p, s);
    hide PartlyMerged, AsymmetryVisited, Symmetric;
    MergedIs(s);
    r := if flag then 1 else 0;
  }

  lemma RowMerged(p: array2<nat>, s: Matrix, i: nat)
    requires Square(s, |s|) && |s| <= p.Length0 && |s| <= p.Length1 && i < |s| && PartlyMerged(p, s, i, |s|)
    ensures PartlyMerged(p, s, i + 1, 0) && (AsymmetryVisited(s, i, |s|) <==> AsymmetryVisited(s, i + 1, 0))
  {
    RowDone(s, i);
  }

  lemma MergedIs(s: Matrix)
    requires Square(s, |s|)
    ensures forall i, j :: 0 <= i <= j < |s| ==> Merged(s, i, j) == if s[i][j] > 0 then s[i][j] else s[j][i]
  {
  }

  lemma AllMerged(p: array2<nat>, s: Matrix)
    requires Square(s, |s|) && |s| <= p.Length0 && |s| <= p.Length1 && PartlyMerged(p, s, |s|, 0)
    ensures forall i, j :: 0 <= i < |s| && 0 <= j < |s| ==> p[i, j] == Merged(s, i, j)
    ensures AsymmetryVisited(s, |s|, 0) <==> !Symmetric(s)
    ensures Symmetric(Values(p, |s|))
  {
    forall i, j | 0 <= i < |s| && 0 <= j < |s| ensures p[i, j] == Merged(s, i, j) { assert Visited(i, j, |s|, 0); }
    if !Symmetric(s) {
      var i, j :| 0 <= i < |s| && 0 <= j < |s| && s[i][j] != s[j][i];
      assert Visited(i, j, |s|, 0);
    }
  }

  // ---- access points ------------------------------------------------------------------------

  class AccessPoint {
    const enableDca: bool
    const operational: bool
    const scanReturned: bool
    const fixedChannel: nat
    const rfa: Rfa
    const optionalCh: array<int>

    constructor (enableDca: bool, operational: bool, scanReturned: bool,
        fixedChannel: nat, rfa: Rfa, optionalCh: array<int>)
      ensures this.enableDca == enableDca && this.operational == operational && this.scanReturned == scanReturned
      ensures this.fixedChannel == fixedChannel && this.rfa == rfa && this.optionalCh == optionalCh
    {
      this.enableDca, this.operational, this.scanReturned := enableDca, operational, scanReturned;
      this.fixedChannel, this.rfa, this.optionalCh := fixedChannel, rfa, optionalCh;
    }

    function Kind(): Kind {
      if !enableDca || !operational || !scanReturned then Skipped
      else if fixedChannel != 0 then Fixed
      else Auto
    }

    ghost predicate Valid() {
      rfa.Valid() && optionalCh.Length == OPTIONAL_CHANNEL_NUM
    }

    /** The stored candidates are those of kind k. */
    ghost predicate CandidatesFor(k: Kind)
      requires Valid()
      reads optionalCh
    {
      match k
      case Auto => AutoCandidates(optionalCh[..])
      case Fixed => optionalCh[..] == [0, 0, 0]
      case Skipped => true
    }
  }

  lemma HeldCandidates(ap: AccessPoint, k: Kind, c: int)
    requires ap.Valid() && ap.CandidatesFor(k) && k != Skipped
    ensures c in ap.optionalCh[..] <==> Candidate(k, c)
  {
    if k == Auto { CandidatesAre(ap.optionalCh[..], c); }
  }

  /** The score of channel c after the interference of the first `pos` colours. */
  function Scored(base: int, c: int, rssi: seq<nat>, colours: seq<int>, pos: nat,
      coef: (int, int) -> nat, add: (int, nat) -> int): int
    requires pos <= |rssi| && pos <= |colours|
    requires forall x: int, y: int :: coef(x, y) >= 1
  {
    if pos == 0 then base
    else
      var s := Scored(base, c, rssi, colours, pos - 1, coef, add);
      if -4 <= colours[pos - 1] - c <= 4 then add(s, rssi[pos - 1] / coef(c, colours[pos - 1])) else s
  }

  /** An assigned colour within four channels adds its share of the signal, any other adds nothing. */
  lemma ScoredNext(base: int, c: int, rssi: seq<nat>, colours: seq<int>, pos: nat,
      coef: (int, int) -> nat, add: (int, nat) -> int)
    requires pos < |rssi| && pos < |colours| && forall x: int, y: int :: coef(x, y) >= 1
    ensures Scored(base, c, rssi, colours, 0, coef, add) == base
    ensures var s := Scored(base, c, rssi, colours, pos, coef, add);
      Scored(base, c, rssi, colours, pos + 1, coef, add)
      == if Abs(colours[pos] - c) <= 4 then add(s, rssi[pos] / coef(c, colours[pos])) else s
  {
  }

  /** A candidate gains nothing from the other two, nor from nodes that take no part, whatever their signals. */
  lemma {:induction false} OthersDoNotInterfere(base: int, c: int, rssi: seq<nat>, colours: seq<int>, pos: nat,
      coef: (int, int) -> nat, add: (int, nat) -> int)
    requires pos <= |rssi| && pos <= |colours| && forall x: int, y: int :: coef(x, y) >= 1
    requires c == 1 || c == 6 || c == 11
    requires forall i :: 0 <= i < pos ==> colours[i] != c
    requires forall i :: 0 <= i < pos ==> colours[i] == 1 || colours[i] == 6 || colours[i] == 11 || colours[i] == 0xff
    ensures Scored(base, c, rssi, colours, pos, coef, add) == base
  {
    if pos > 0 { OthersDoNotInterfere(base, c, rssi, colours, pos - 1, coef, add); }
  }

  lemma ZeroIsNoAuto(ap: AccessPoint)
    requires ap.Valid()
    ensures !(ap.CandidatesFor(Auto) && ap.CandidatesFor(Fixed))
  {
    if ap.CandidatesFor(Auto) { CandidatesAre(ap.optionalCh[..], 1); }
  }

  class Head {
    const nodes: seq<AccessPoint>
    const adjacent: array2<nat>
    const rssi: array2<nat>
    const colours: array<int>
    const rfaTemp: Rfa
    const coef: (int, int) -> nat
    const add: (int, nat) -> int
    ghost const held: Kind // the kind of the candidates that the first node holds
    var schemeCnt: nat
    var threshold: nat

    constructor (nodes: seq<AccessPoint>, adjacent: array2<nat>, rssi: array2<nat>, colours: array<int>, rfaTemp: Rfa,
        coef: (int, int) -> nat, add: (int, nat) -> int)
      ensures this.nodes == nodes && this.adjacent == adjacent && this.rssi == rssi
      ensures this.colours == colours && this.rfaTemp == rfaTemp && this.coef == coef && this.add == add
      ensures schemeCnt == 0 && threshold == 15
      ensures held == if |nodes| > 0 && nodes[0].optionalCh[..] == [0, 0, 0] then Fixed else Auto
    {
      this.nodes, this.adjacent, this.rssi, this.colours, this.rfaTemp := nodes, adjacent, rssi, colours, rfaTemp;
      this.coef, this.add, schemeCnt, threshold := coef, add, 0, 15;
      held := if |nodes| > 0 && nodes[0].optionalCh[..] == [0, 0, 0] then Fixed else Auto;
    }

    /** The arrays are large enough and do not overlap. */
    ghost predicate Valid() {
      && |nodes| <= colours.Length && adjacent != rssi && held != Skipped
      && |nodes| <= adjacent.Length0 && |nodes| <= adjacent.Length1
      && |nodes| <= rssi.Length0 && |nodes| <= rssi.Length1
      && rfaTemp.Valid() && colours != rfaTemp.score && colours != rfaTemp.ch
      && (forall x: int, y: int :: coef(x, y) >= 1)
      && (forall i :: 0 <= i < |nodes| ==> nodes[i].Valid() && Apart(nodes[i]))
      && (forall i, j :: 0 <= i < |nodes| && 0 <= j < |nodes| ==>
            nodes[i].optionalCh != nodes[j].rfa.score && nodes[i].optionalCh != nodes[j].rfa.ch)
      && (forall i, j :: 0 <= i < j < |nodes| ==> nodes[i].optionalCh != nodes[j].optionalCh)
    }

    ghost predicate Apart(ap: AccessPoint) {
      && ap.optionalCh != colours && ap.optionalCh != rfaTemp.score && ap.optionalCh != rfaTemp.ch
      && ap.rfa.score != colours && ap.rfa.score != rfaTemp.score && ap.rfa.score != rfaTemp.ch
      && ap.rfa.ch != colours && ap.rfa.ch != rfaTemp.score && ap.rfa.ch != rfaTemp.ch
    }

    /**
     * How the search treats node i: as it is configured, except that the first node, whose candidates are never ordered
     * again, is treated as the candidates say that it holds.
     */
    ghost function KindOf(i: nat): (k: Kind)
      requires i < |nodes|
      ensures held != Skipped ==> (k == Skipped <==> nodes[i].Kind() == Skipped)
    {
      if i == 0 && nodes[0].Kind() != Skipped then held else nodes[i].Kind()
    }

    ghost function Kinds(): (k: seq<Kind>)
      ensures |k| == |nodes| && forall i :: 0 <= i < |k| ==> k[i] == KindOf(i)
    {
      seq(|nodes|, i requires 0 <= i < |nodes| => KindOf(i))
    }

    /** The first node is treated as configured if and only if its candidates are those of its setting. */
    lemma TreatedAsConfiguredIff()
      requires Ready() && |nodes| > 0
      ensures Kinds() == seq(|nodes|, i requires 0 <= i < |nodes| => nodes[i].Kind())
         <==> nodes[0].CandidatesFor(nodes[0].Kind())
    {
      var configured := seq(|nodes|, i requires 0 <= i < |nodes| => nodes[i].Kind());
      assert NodeReady(0) && configured[0] == nodes[0].Kind() && Kinds()[0] == KindOf(0);
      if KindOf(0) == nodes[0].Kind() {
        assert Kinds() == configured;
      } else {
        ZeroIsNoAuto(nodes[0]);
      }
    }

    ghost function Options(): set<array<int>> {
      set i | 0 <= i < |nodes| :: nodes[i].optionalCh
    }

    /** isColorOk */
    method IsColorOk(vertex: nat, color: int) returns (ok: bool)
      requires Valid() && vertex < |nodes|
      ensures ok <==> Free(Values(adjacent, |nodes|), colours[..vertex], color, |nodes|)
    {
      ghost var adj, prefix := Values(adjacent, |nodes|), colours[..vertex];
      for u := 0 to vertex
        invariant forall w :: 0 <= w < u ==> !(adj[vertex][w] != 0 && color == prefix[w])
      {
        assert adj[vertex][u] == adjacent[vertex, u] && prefix[u] == colours[u];
        if adjacent[vertex, u] != 0 && color == colours[u] {
          return false;
        }
      }
      return true;
    }

    /** The scores of ap's channels once the first `pos` assigned colours are taken into account. */
    ghost function ScoresAfter(ap: AccessPoint, position: nat, pos: nat): (sc: seq<int>)
      requires Valid() && position < |nodes| && pos <= |nodes| && ap in nodes
      reads ap.rfa.score, ap.rfa.ch, rssi, colours
      ensures |sc| == NUM_USING_CHANNEL
    {
      var base, ch, row, cols := ap.rfa.Scores(), ap.rfa.Channels(), Values(rssi, |nodes|)[position], colours[..];
      seq(NUM_USING_CHANNEL, i requires 0 <= i < NUM_USING_CHANNEL => Scored(base[i], ch[i], row, cols, pos, coef, add))
    }

    /** The inner loop of doRfa: the interference of the colour at `pos` on all eleven channels. */
    method AddInterference(position: nat, pos: nat)
      requires Valid() && position < |nodes| && pos < |nodes|
      modifies rfaTemp.score
      ensures forall i :: 1 <= i <= NUM_USING_CHANNEL ==>
        var s, c := old(rfaTemp.score[i]), rfaTemp.ch[i];
        rfaTemp.score[i] ==
          if -4 <= colours[pos] - c <= 4 then add(s, rssi[position, pos] / coef(c, colours[pos])) else s
    {
      ghost var before := rfaTemp.score[..];
      for i := 1 to NUM_USING_CHANNEL + 1
        invariant forall k :: i <= k <= NUM_USING_CHANNEL ==> rfaTemp.score[k] == before[k]
        invariant forall k :: 1 <= k < i ==>
          var s, c := before[k], rfaTemp.ch[k];
          rfaTemp.score[k] ==
            if -4 <= colours[pos] - c <= 4 then add(s, rssi[position, pos] / coef(c, colours[pos])) else s
      {
        var distance := colours[pos] - rfaTemp.ch[i];
        if -4 <= distance <= 4 {
          rfaTemp.score[i] := add(rfaTemp.score[i], rssi[position, pos] / coef(rfaTemp.ch[i], colours[pos]));
        }
      }
    }

    /** memcpy of an access point's table into the scratch table. */
    method CopyTable(ap: AccessPoint)
      requires Valid() && ap in nodes
      modifies rfaTemp.score, rfaTemp.ch
      ensures rfaTemp.Channels() == ap.rfa.Channels() && rfaTemp.Scores() == ap.rfa.Scores()
    {
      forall i | 0 <= i <= NUM_USING_CHANNEL { rfaTemp.score[i] := ap.rfa.score[i]; }
      forall i | 0 <= i <= NUM_USING_CHANNEL { rfaTemp.ch[i] := ap.rfa.ch[i]; }
    }

    /**
     * doRfa, for any table: the scratch table becomes the node's table with the scores after the colours assigned so
     * far, and the candidates of an auto node are ordered from it.
     */
    method DoRfa(ap: AccessPoint, position: nat)
      requires Valid() && position < |nodes| && ap == nodes[position]
      modifies rfaTemp.score, rfaTemp.ch, ap.optionalCh
      ensures position > 0 && ap.fixedChannel == 0 ==>
        Ordered(ap, ScoresAfter(ap, position, position), old(ap.optionalCh[..]))
      ensures position > 0 && ap.fixedChannel != 0 ==> ap.optionalCh[..] == [0, 0, 0]
      ensures position == 0 ==> ap.optionalCh[..] == old(ap.optionalCh[..])
    {
      hide ScoresAfter, Rearranged, Ascending, Filled, Optional, AutoCandidates;
      CopyTable(ap);
      ScoreStart(ap, position);
      var pos := 0;
      while pos < position
        invariant 0 <= pos <= position
        invariant rfaTemp.Channels() == ap.rfa.Channels()
        invariant rfaTemp.Scores() == ScoresAfter(ap, position, pos)
        invariant ap.optionalCh[..] == old(ap.optionalCh[..])
        invariant pos > 0 ==> ap.fixedChannel == 0
      {
        if ap.fixedChannel != 0 {
          ap.optionalCh[0], ap.optionalCh[1], ap.optionalCh[2] := 0, 0, 0;
          break;
        }
        AddOne(ap, position, pos);
        pos := pos + 1;
      }
      if pos > 0 {
        Order(rfaTemp, ap.optionalCh);
      }
    }

    /** What the ordering leaves, for the scores `sc` of ap's channels and the candidates `before`. */
    ghost predicate Ordered(ap: AccessPoint, sc: seq<int>, before: seq<int>)
      requires Valid() && ap in nodes
      reads rfaTemp.ch, rfaTemp.score, ap.rfa.ch, ap.optionalCh
    {
      && Rearranged(ap.rfa.Channels(), sc, rfaTemp.Channels(), rfaTemp.Scores())
      && if SomePositive(sc)
         then Ascending(rfaTemp.Scores()) && ap.optionalCh[..] == Filled(Optional(rfaTemp.Channels()), before)
         else AutoCandidates(ap.optionalCh[..])
    }

    /** A full table gives 1, 6 and 11, by score when some score is positive. */
    lemma OrderedFromFull(ap: AccessPoint, sc: seq<int>, before: seq<int>)
      requires Valid() && ap in nodes && Ordered(ap, sc, before) && AllChannels(ap.rfa.Channels())
      requires |before| == OPTIONAL_CHANNEL_NUM && |sc| == NUM_USING_CHANNEL
      ensures AutoCandidates(ap.optionalCh[..])
      ensures SomePositive(sc) ==> ByScore(ap.optionalCh[..], Zip(ap.rfa.Channels(), sc))
    {
      hide Rearranged, Ascending, Filled, Optional, AutoCandidates, AllChannels, ByScore, Zip;
      if SomePositive(sc) {
        OrderOfFullTable(ap.rfa.Channels(), sc, rfaTemp.Channels(), rfaTemp.Scores(), before);
      }
    }

    /** A table without an optional channel, as one that was zeroed, keeps candidates that were 1, 6 and 11. */
    lemma OrderedFromBare(ap: AccessPoint, sc: seq<int>, before: seq<int>)
      requires Valid() && ap in nodes && Ordered(ap, sc, before) && Optional(ap.rfa.Channels()) == []
      requires |sc| == NUM_USING_CHANNEL
      ensures AutoCandidates(ap.optionalCh[..]) || ap.optionalCh[..] == before
    {
      hide Ascending, Filled, Optional, AutoCandidates, Zip;
      if SomePositive(sc) {
        OrderOfBareTable(ap.rfa.Channels(), rfaTemp.Channels(), before);
      }
    }

    /** One pass of the loop of doRfa. */
    method AddOne(ap: AccessPoint, position: nat, pos: nat)
      requires Valid() && position < |nodes| && pos < |nodes| && ap in nodes
      requires rfaTemp.Channels() == ap.rfa.Channels() && rfaTemp.Scores() == ScoresAfter(ap, position, pos)
      modifies rfaTemp.score
      ensures rfaTemp.Scores() == ScoresAfter(ap, position, pos + 1)
    {
      hide ScoresAfter;
      ghost var before := rfaTemp.Scores();
      AddInterference(position, pos);
      ScoreStep(ap, position, pos, before);
    }

    lemma ScoreStart(ap: AccessPoint, position: nat)
      requires Valid() && position < |nodes| && ap in nodes
      ensures ScoresAfter(ap, position, 0) == ap.rfa.Scores()
    {
    }

    lemma ScoreStep(ap: AccessPoint, position: nat, pos: nat, before: seq<int>)
      requires Valid() && position < |nodes| && pos < |nodes| && ap in nodes && |before| == NUM_USING_CHANNEL
      requires before == ScoresAfter(ap, position, pos) && rfaTemp.Channels() == ap.rfa.Channels()
      requires forall i :: 1 <= i <= NUM_USING_CHANNEL ==>
        var s, c := before[i - 1], rfaTemp.ch[i];
        rfaTemp.score[i] ==
          if -4 <= colours[pos] - c <= 4 then add(s, rssi[position, pos] / coef(c, colours[pos])) else s
      ensures rfaTemp.Scores() == ScoresAfter(ap, position, pos + 1)
    {
      var now, after := rfaTemp.Scores(), ScoresAfter(ap, position, pos + 1);
      forall i | 0 <= i < NUM_USING_CHANNEL ensures now[i] == after[i] {
        assert now[i] == rfaTemp.score[i + 1] && rfaTemp.ch[i + 1] == rfaTemp.Channels()[i];
      }
    }

    // ---- the backtracking search ------------------------------------------------------------

    ghost function Adj(): (adj: Matrix)
      requires Valid()
      reads adjacent
      ensures Square(adj, |nodes|)
    {
      Values(adjacent, |nodes|)
    }

    /**
     * What the search needs of node i. A skipped node may have any table and any candidates, a node on a configured
     * channel any table. An auto node has a table of all eleven channels, or, as when its table was zeroed, one without
     * an optional channel and candidates left from before. The first node holds candidates of either kind, which need
     * not be the one that it is configured for.
     */
    ghost predicate NodeReady(i: nat)
      requires Valid() && i < |nodes|
      reads nodes[i].optionalCh, nodes[i].rfa.ch
    {
      var ap := nodes[i];
      match KindOf(i)
      case Skipped => true
      case Fixed => i == 0 ==> ap.CandidatesFor(Fixed)
      case Auto =>
        || (i > 0 && AllChannels(ap.rfa.Channels()))
        || ((i == 0 || Optional(ap.rfa.Channels()) == []) && ap.CandidatesFor(Auto))
    }

    ghost predicate Ready()
      reads Options(), set i | 0 <= i < |nodes| :: nodes[i].rfa.ch
    {
      Valid() && forall i :: 0 <= i < |nodes| ==> NodeReady(i)
    }

    ghost predicate Proper(n: nat)
      requires Valid() && n <= |nodes|
      reads adjacent, colours
    {
      ProperUpTo(Kinds(), Adj(), colours[..n], n)
    }

    ghost predicate Dead(prefix: seq<int>)
      requires Valid()
      reads adjacent
    {
      DeadEnd(Kinds(), Adj(), prefix)
    }

    /** The candidates of the nodes before `vertex`, and of the first node, are as they were. */
    twostate predicate CandidatesKept(vertex: nat)
      reads Options()
    {
      forall k :: 0 <= k < |nodes| && (k < vertex || k == 0) ==> nodes[k].optionalCh[..] == old(nodes[k].optionalCh[..])
    }

    method ClearScratch()
      requires Valid()
      modifies rfaTemp.score, rfaTemp.ch
    {
      forall i | 0 <= i <= NUM_USING_CHANNEL { rfaTemp.score[i] := 0; }
      forall i | 0 <= i <= NUM_USING_CHANNEL { rfaTemp.ch[i] := 0; }
    }

    /** The candidates of `vertex` are put in order before they are tried. */
    method Prepare(vertex: nat)
      requires Ready() && vertex < |nodes|
      modifies rfaTemp.score, rfaTemp.ch, nodes[vertex].optionalCh
      ensures Ready() && CandidatesKept(vertex)
      ensures KindOf(vertex) != Skipped ==> nodes[vertex].CandidatesFor(KindOf(vertex))
      ensures vertex > 0 && nodes[vertex].enableDca && nodes[vertex].operational ==>
        if nodes[vertex].fixedChannel != 0 then nodes[vertex].optionalCh[..] == [0, 0, 0]
        else Ordered(nodes[vertex], ScoresAfter(nodes[vertex], vertex, vertex), old(nodes[vertex].optionalCh[..]))
      ensures !(vertex > 0 && nodes[vertex].enableDca && nodes[vertex].operational) ==>
        nodes[vertex].optionalCh[..] == old(nodes[vertex].optionalCh[..])
    {
      hide AutoCandidates, AllChannels, Optional, Ordered;
      ClearScratch();
      var ap := nodes[vertex];
      assert NodeReady(vertex);
      if vertex > 0 && ap.enableDca && ap.operational {
        ghost var before := ap.optionalCh[..];
        DoRfa(ap, vertex);
        if ap.fixedChannel == 0 && ap.scanReturned {
          ghost var sc := ScoresAfter(ap, vertex, vertex);
          if AllChannels(ap.rfa.Channels()) { OrderedFromFull(ap, sc, before); }
          else { OrderedFromBare(ap, sc, before); }
        }
      }
      forall i | 0 <= i < |nodes| ensures NodeReady(i) { if i != vertex { assert old(NodeReady(i)); } }
    }

    /** giveOneAssign: finds a proper assignment that extends the colours before `vertex`, or there is none. */
    method GiveOneAssign(vertex: nat)
      requires Ready() && schemeCnt == 0 && vertex <= |nodes| && Proper(vertex)
      modifies this`schemeCnt, colours, rfaTemp.score, rfaTemp.ch, Options()
      ensures Ready() && schemeCnt <= 1 && CandidatesKept(vertex)
      ensures colours[..vertex] == old(colours[..vertex])
      ensures schemeCnt == 1 ==> Proper(|nodes|)
      ensures schemeCnt == 0 ==> Dead(old(colours[..vertex]))
      decreases |nodes| - vertex, 2
    {
      hide ProperUpTo, DeadEnd;
      if vertex >= |nodes| {
        ClearScratch();
        schemeCnt := schemeCnt + 1;
        return;
      }
      assert nodes[vertex].optionalCh in Options();
      Prepare(vertex);
      if nodes[vertex].enableDca && nodes[vertex].operational && nodes[vertex].scanReturned {
        TryCandidates(vertex);
      } else {
        Skip(vertex);
      }
    }

    /** The loop over the three candidate colours, left as soon as there is a scheme. */
    method TryCandidates(vertex: nat)
      requires Ready() && schemeCnt == 0 && vertex < |nodes| && Proper(vertex)
      requires KindOf(vertex) != Skipped && nodes[vertex].CandidatesFor(KindOf(vertex))
      modifies this`schemeCnt, colours, rfaTemp.score, rfaTemp.ch, Options()
      ensures Ready() && schemeCnt <= 1 && CandidatesKept(vertex + 1)
      ensures colours[..vertex] == old(colours[..vertex])
      ensures schemeCnt == 1 ==> Proper(|nodes|)
      ensures schemeCnt == 0 ==> Dead(old(colours[..vertex]))
      decreases |nodes| - vertex, 1
    {
      hide ProperUpTo, DeadEnd, AutoCandidates;
      var ap := nodes[vertex];
      ghost var prefix, cands := colours[..vertex], ap.optionalCh[..];
      forall c: int ensures c in cands <==> Candidate(KindOf(vertex), c) { HeldCandidates(ap, KindOf(vertex), c); }
      hide Candidate, DeadUpTo;
      NothingTried(Kinds(), Adj(), prefix, cands);
      for colorIndex := 0 to OPTIONAL_CHANNEL_NUM
        invariant Ready() && schemeCnt <= 1 && CandidatesKept(vertex + 1)
        invariant colours[..vertex] == prefix && ap.optionalCh[..] == cands
        invariant schemeCnt == 1 ==> Proper(|nodes|)
        invariant schemeCnt == 0 ==> Proper(vertex) && DeadUpTo(Kinds(), Adj(), prefix, cands, colorIndex)
      {
        if schemeCnt > 0 { break; }
        Try(vertex, ap.optionalCh[colorIndex]);
        if schemeCnt == 0 { OneMoreTried(Kinds(), Adj(), prefix, cands, colorIndex); }
      }
      if schemeCnt == 0 { CandidatesExhausted(Kinds(), Adj(), prefix, cands); }
    }

    /** One candidate colour: checked, stored, and followed by the search for the rest. */
    method Try(vertex: nat, color: int)
      requires Ready() && schemeCnt == 0 && vertex < |nodes| && Proper(vertex)
      requires KindOf(vertex) != Skipped && Candidate(KindOf(vertex), color)
      modifies this`schemeCnt, colours, rfaTemp.score, rfaTemp.ch, Options()
      ensures Ready() && schemeCnt <= 1 && CandidatesKept(vertex + 1)
      ensures colours[..vertex] == old(colours[..vertex])
      ensures schemeCnt == 1 ==> Proper(|nodes|)
      ensures schemeCnt == 0 ==> Dead(old(colours[..vertex]) + [color])
      decreases |nodes| - vertex, 0
    {
      hide ProperUpTo, DeadEnd, Free, Candidate, AutoCandidates, AllChannels;
      ghost var prefix := colours[..vertex];
      var ok := IsColorOk(vertex, color);
      if ok {
        ExtendProper(Kinds(), Adj(), prefix, color);
        colours[vertex] := color;
        assert colours[..vertex + 1] == prefix + [color];
        GiveOneAssign(vertex + 1);
        assert colours[..vertex] == colours[..vertex + 1][..vertex];
      } else {
        TakenIsDeadEnd(Kinds(), Adj(), prefix, color);
      }
    }

    /** A node that takes no part gets the colour 0xff and is never checked. */
    method Skip(vertex: nat)
      requires Ready() && schemeCnt == 0 && vertex < |nodes| && Proper(vertex) && KindOf(vertex) == Skipped
      modifies this`schemeCnt, colours, rfaTemp.score, rfaTemp.ch, Options()
      ensures Ready() && schemeCnt <= 1 && CandidatesKept(vertex + 1)
      ensures colours[..vertex] == old(colours[..vertex])
      ensures schemeCnt == 1 ==> Proper(|nodes|)
      ensures schemeCnt == 0 ==> Dead(old(colours[..vertex]))
      decreases |nodes| - vertex, 0
    {
      hide ProperUpTo, DeadEnd;
      ghost var prefix := colours[..vertex];
      ExtendProper(Kinds(), Adj(), prefix, SKIPPED_COLOUR);
      colours[vertex] := SKIPPED_COLOUR;
      assert colours[..vertex + 1] == prefix + [SKIPPED_COLOUR];
      GiveOneAssign(vertex + 1);
      assert colours[..vertex] == colours[..vertex + 1][..vertex];
      if schemeCnt == 0 {
        AllDeadEnds(Kinds(), Adj(), prefix);
      }
    }

    // ---- one threshold ------------------------------------------------------------------------

    ghost function Signals(): (m: Matrix)
      requires Valid()
      reads rssi
      ensures Square(m, |nodes|)
    {
      Values(rssi, |nodes|)
    }

    /** Clears the adjacency matrix and cuts the signals at `t` into it. */
    method CutSignals(t: nat)
      requires Valid()
      modifies adjacent
      ensures forall i, j :: 0 <= i < |nodes| && 0 <= j < |nodes| ==> adjacent[i, j] == if rssi[i, j] > t then 1 else 0
    {
      forall i, j | 0 <= i < adjacent.Length0 && 0 <= j < adjacent.Length1 { adjacent[i, j] := 0; }
      for row := 0 to |nodes|
        invariant forall i, j :: 0 <= i < row && 0 <= j < |nodes| ==> adjacent[i, j] == if rssi[i, j] > t then 1 else 0
      {
        for col := 0 to |nodes|
          invariant forall i, j :: 0 <= i < row && 0 <= j < |nodes| ==>
            adjacent[i, j] == if rssi[i, j] > t then 1 else 0
          invariant forall j :: 0 <= j < col ==> adjacent[row, j] == if rssi[row, j] > t then 1 else 0
        {
          adjacent[row, col] := if rssi[row, col] > t then 1 else 0;
        }
      }
    }

    /** Clears the adjacency matrix, cuts the signals at `t` into it, and makes it symmetric. */
    method BuildAdjacency(t: nat)
      requires Valid()
      modifies adjacent
      ensures Symmetrised(Signals(), t, Adj(), |nodes|)
      ensures forall u, v :: 0 <= u < |nodes| && 0 <= v < |nodes| ==>
        (adjacent[u, v] != 0 <==> rssi[u, v] > t || rssi[v, u] > t)
    {
      hide Merged, Symmetric;
      CutSignals(t);
      ghost var cut := Adj();
      assert forall i, j :: 0 <= i < |nodes| && 0 <= j < |nodes| ==> cut[i][j] == if rssi[i, j] > t then 1 else 0;
      var flag := Symmetrise(adjacent, |nodes|);
      MergedCutIsSymmetrised(Signals(), t, cut, Adj());
      EdgesAre(t);
    }

    lemma EdgesAre(t: nat)
      requires Valid() && Symmetrised(Signals(), t, Adj(), |nodes|)
      ensures forall u, v :: 0 <= u < |nodes| && 0 <= v < |nodes| ==>
        (adjacent[u, v] != 0 <==> rssi[u, v] > t || rssi[v, u] > t)
    {
      forall u, v | 0 <= u < |nodes| && 0 <= v < |nodes|
        ensures adjacent[u, v] != 0 <==> rssi[u, v] > t || rssi[v, u] > t
      {
        assert Adj()[u][v] != 0 <==> Exceeds(Signals(), t, u, v);
      }
    }

    /**
     * An assignment at threshold t, from the flags of the nodes alone: 0xff for a node that is not enabled, not
     * operational or not scanned; a held candidate for the first node; 0 on a configured channel; 1, 6 or 11 otherwise.
     * Only nodes with all three flags constrain each other.
     */
    ghost predicate Assigns(a: seq<int>, t: nat)
      requires Valid()
      reads rssi, Options()
    {
      && |a| == |nodes|
      && (forall v :: 0 <= v < |a| ==>
            var ap := nodes[v];
            if !(ap.enableDca && ap.operational && ap.scanReturned) then a[v] == 0xff
            else if v == 0 then a[v] in ap.optionalCh[..]
            else if ap.fixedChannel != 0 then a[v] == 0
            else a[v] == 1 || a[v] == 6 || a[v] == 11)
      && (forall u, v :: 0 <= u < |a| && 0 <= v < |a| && u != v && rssi[u, v] > t
            && nodes[u].enableDca && nodes[u].operational && nodes[u].scanReturned
            && nodes[v].enableDca && nodes[v].operational && nodes[v].scanReturned
            ==> a[u] != a[v])
    }

    ghost predicate Assignable(t: nat)
      requires Valid()
      reads rssi, Options()
    {
      exists a :: Assigns(a, t)
    }

    /** The plans over the kinds are the assignments over the flags. */
    lemma PlanIsAssignment(a: seq<int>, t: nat)
      requires Ready()
      ensures Plan(Kinds(), Signals(), t, a) <==> Assigns(a, t)
    {
      hide AutoCandidates, AllChannels;
      if |nodes| > 0 && KindOf(0) != Skipped {
        assert NodeReady(0);
        forall c: int ensures c in nodes[0].optionalCh[..] <==> Candidate(held, c) {
          HeldCandidates(nodes[0], held, c);
        }
      }
      if |a| == |nodes| {
        forall v | 0 <= v < |a| ensures Candidate(Kinds()[v], a[v]) <==>
          var ap := nodes[v];
          if !(ap.enableDca && ap.operational && ap.scanReturned) then a[v] == 0xff
          else if v == 0 then a[v] in ap.optionalCh[..]
          else if ap.fixedChannel != 0 then a[v] == 0
          else a[v] == 1 || a[v] == 6 || a[v] == 11
        {
        }
      }
    }

    lemma ColourableIsAssignable(t: nat)
      requires Ready()
      ensures Colourable(Kinds(), Signals(), t) <==> Assignable(t)
    {
      hide Plan, Assigns;
      forall a ensures Plan(Kinds(), Signals(), t, a) <==> Assigns(a, t) { PlanIsAssignment(a, t); }
    }

    /** The candidates of the first node are 0, 1, 6 or 11. */
    lemma FirstColour(a: seq<int>, t: nat)
      requires Ready() && Assigns(a, t) && |nodes| > 0
      requires nodes[0].enableDca && nodes[0].operational && nodes[0].scanReturned
      ensures a[0] == 0 || a[0] == 1 || a[0] == 6 || a[0] == 11
    {
      assert NodeReady(0);
      HeldCandidates(nodes[0], held, a[0]);
    }

    /** Adjacency at `t`, cleared colours and count, and the search from the first node. */
    method Search(t: nat)
      requires Ready()
      modifies this`schemeCnt, colours, rfaTemp.score, rfaTemp.ch, Options(), adjacent
      ensures Ready() && schemeCnt <= 1 && CandidatesKept(0)
      ensures schemeCnt == 1 <==> Colourable(Kinds(), Signals(), t)
      ensures schemeCnt == 1 ==> Plan(Kinds(), Signals(), t, colours[..|nodes|])
    {
      hide ProperUpTo, DeadEnd, Plan, Symmetrised, Colourable, AutoCandidates, AllChannels, Optional;
      BuildAdjacency(t);
      forall i | 0 <= i < colours.Length { colours[i] := 0; }
      schemeCnt := 0;
      EmptyIsProper(Kinds(), Adj(), colours[..0]);
      GiveOneAssign(0);
      SearchResult(Kinds(), Signals(), t, Adj(), colours[..|nodes|], schemeCnt);
    }

    /** One round of the calculation: it finds an assignment if and only if there is one. */
    method Evaluate(t: nat)
      requires Ready()
      modifies this`schemeCnt, colours, rfaTemp.score, rfaTemp.ch, Options(), adjacent
      ensures Ready() && schemeCnt <= 1 && CandidatesKept(0)
      ensures schemeCnt == 1 <==> Colourable(Kinds(), Signals(), t)
      ensures schemeCnt == 1 ==> Plan(Kinds(), Signals(), t, colours[..|nodes|])
      ensures schemeCnt == 1 <==> Assignable(t)
      ensures schemeCnt == 1 ==> Assigns(colours[..|nodes|], t)
      ensures schemeCnt == 1 ==> forall v :: 0 <= v < |nodes| ==>
        (colours[v] == 0xff <==> !(nodes[v].enableDca && nodes[v].operational && nodes[v].scanReturned))
      ensures schemeCnt == 1 ==> forall v :: 0 < v < |nodes| && colours[v] != 0xff ==>
        (colours[v] == 0 <==> nodes[v].fixedChannel != 0)
      ensures schemeCnt == 1 <==> Colourable(Kinds(), Signals(), t)
      ensures schemeCnt == 1 ==> Plan(Kinds(), Signals(), t, colours[..|nodes|])
    {
      hide Plan, Assigns, Assignable, Colourable;
      Search(t);
      ColourableIsAssignable(t);
      PlanIsAssignment(colours[..|nodes|], t);
      if schemeCnt == 1 { ColoursFromFlags(t, colours[..|nodes|]); }
    }

    lemma ColoursFromFlags(t: nat, a: seq<int>)
      requires Ready() && Assigns(a, t)
      ensures forall v :: 0 <= v < |nodes| ==>
        (a[v] == 0xff <==> !(nodes[v].enableDca && nodes[v].operational && nodes[v].scanReturned))
      ensures forall v :: 0 < v < |nodes| && a[v] != 0xff ==> (a[v] == 0 <==> nodes[v].fixedChannel != 0)
    {
      if |nodes| > 0 && nodes[0].enableDca && nodes[0].operational && nodes[0].scanReturned { FirstColour(a, t); }
    }
  }

  lemma SearchResult(kinds: seq<Kind>, rssi: Matrix, t: nat, adj: Matrix, a: seq<int>, count: nat)
    requires Square(rssi, |kinds|) && Square(adj, |kinds|) && Symmetrised(rssi, t, adj, |kinds|) && |a| == |kinds|
    requires count == 1 ==> ProperUpTo(kinds, adj, a, |a|)
    requires count == 0 ==> DeadEnd(kinds, adj, [])
    ensures count == 1 ==> Plan(kinds, rssi, t, a) && Colourable(kinds, rssi, t)
    ensures count == 0 ==> !Colourable(kinds, rssi, t)
  {
    hide ProperUpTo, DeadEnd, Plan, Symmetrised;
    if count == 1 { ProperIsPlan(kinds, rssi, t, adj, a); }
    if count == 0 { DeadStart(kinds, rssi, t, adj); }
  }

  lemma EmptyIsProper(kinds: seq<Kind>, adj: Matrix, a: seq<int>)
    requires Square(adj, |kinds|)
    ensures ProperUpTo(kinds, adj, a, 0)
  {
  }

  lemma MergedCutIsSymmetrised(rssi: Matrix, t: nat, cut: Matrix, adj: Matrix)
    requires Square(rssi, |cut|) && Square(cut, |cut|) && Square(adj, |cut|)
    requires forall i, j :: 0 <= i < |cut| && 0 <= j < |cut| ==> cut[i][j] == if rssi[i][j] > t then 1 else 0
    requires forall i, j :: 0 <= i < |cut| && 0 <= j < |cut| ==> adj[i][j] == Merged(cut, i, j)
    ensures Symmetrised(rssi, t, adj, |cut|)
  {
    forall u, v | 0 <= u < |cut| && 0 <= v < |cut| ensures adj[u][v] != 0 <==> Exceeds(rssi, t, u, v) {
      assert cut[u][v] == if rssi[u][v] > t then 1 else 0;
      assert cut[v][u] == if rssi[v][u] > t then 1 else 0;
    }
  }

  /** The first n candidates have been tried in vain. */
  ghost predicate DeadUpTo(kinds: seq<Kind>, adj: Matrix, prefix: seq<int>, cands: seq<int>, n: nat)
    requires Square(adj, |kinds|) && n <= |cands|
  {
    forall k :: 0 <= k < n ==> DeadEnd(kinds, adj, prefix + [cands[k]])
  }

  lemma NothingTried(kinds: seq<Kind>, adj: Matrix, prefix: seq<int>, cands: seq<int>)
    requires Square(adj, |kinds|)
    ensures DeadUpTo(kinds, adj, prefix, cands, 0)
  {
  }

  lemma OneMoreTried(kinds: seq<Kind>, adj: Matrix, prefix: seq<int>, cands: seq<int>, n: nat)
    requires Square(adj, |kinds|) && n < |cands| && DeadUpTo(kinds, adj, prefix, cands, n)
    requires DeadEnd(kinds, adj, prefix + [cands[n]])
    ensures DeadUpTo(kinds, adj, prefix, cands, n + 1)
  {
    hide DeadEnd;
  }

  lemma CandidatesExhausted(kinds: seq<Kind>, adj: Matrix, prefix: seq<int>, cands: seq<int>)
    requires Square(adj, |kinds|) && |prefix| < |kinds|
    requires forall c: int :: c in cands <==> Candidate(kinds[|prefix|], c)
    requires DeadUpTo(kinds, adj, prefix, cands, |cands|)
    ensures DeadEnd(kinds, adj, prefix)
  {
    hide DeadEnd;
    forall c | Candidate(kinds[|prefix|], c) ensures DeadEnd(kinds, adj, prefix + [c]) {
      assert c in cands;
    }
    AllDeadEnds(kinds, adj, prefix);
  }
}
