/** What a channel assignment must satisfy, as a graph-colouring problem over the signal strengths. */
module ChannelColouring {

  /** Auto: free to use 1, 6 or 11. Fixed: every candidate is 0. Skipped: not enabled, not up, or not scanned. */
  datatype Kind = Auto | Fixed | Skipped

  const SKIPPED_COLOUR: int := 0xff

  type Matrix = seq<seq<nat>>

  ghost predicate Square(m: Matrix, n: nat) {
    |m| == n && forall i :: 0 <= i < n ==> |m[i]| == n
  }

  predicate Candidate(k: Kind, c: int) {
    match k
    case Auto => c == 1 || c == 6 || c == 11
    case Fixed => c == 0
    case Skipped => c == SKIPPED_COLOUR
  }

  /** A plan at threshold t: candidates everywhere, and different channels wherever a signal exceeds t. */
  ghost predicate Plan(kinds: seq<Kind>, rssi: Matrix, t: nat, a: seq<int>)
    requires Square(rssi, |kinds|)
  {
    && |a| == |kinds|
    && (forall v :: 0 <= v < |a| ==> Candidate(kinds[v], a[v]))
    && (forall u, v ::
          0 <= u < |a| && 0 <= v < |a| && u != v && rssi[u][v] > t && kinds[u] != Skipped && kinds[v] != Skipped
          ==> a[u] != a[v])
  }

  ghost predicate Colourable(kinds: seq<Kind>, rssi: Matrix, t: nat)
    requires Square(rssi, |kinds|)
  {
    exists a :: Plan(kinds, rssi, t, a)
  }

  /** Raising the threshold keeps every plan a plan. */
  lemma PlanIsMonotone(kinds: seq<Kind>, rssi: Matrix, t: nat, t': nat)
    requires Square(rssi, |kinds|) && t <= t' && Colourable(kinds, rssi, t)
    ensures Colourable(kinds, rssi, t')
  {
    var a :| Plan(kinds, rssi, t, a);
    assert Plan(kinds, rssi, t', a);
  }

  function AnyCandidate(k: Kind): (c: int)
    ensures Candidate(k, c)
  {
    match k
    case Auto => 1
    case Fixed => 0
    case Skipped => SKIPPED_COLOUR
  }

  /** At a threshold that no signal exceeds there is always a plan. */
  lemma ColourableAtTop(kinds: seq<Kind>, rssi: Matrix, t: nat)
    requires Square(rssi, |kinds|)
    requires forall u, v :: 0 <= u < |kinds| && 0 <= v < |kinds| ==> rssi[u][v] <= t
    ensures Colourable(kinds, rssi, t)
  {
    var a := seq(|kinds|, v requires 0 <= v < |kinds| => AnyCandidate(kinds[v]));
    assert Plan(kinds, rssi, t, a);
  }

  /** Two access points on configured channels hear each other above t. */
  ghost predicate FixedClash(kinds: seq<Kind>, rssi: Matrix, t: nat)
    requires Square(rssi, |kinds|)
  {
    exists u, v :: 0 <= u < |kinds| && 0 <= v < |kinds| && u != v && kinds[u] == Fixed && kinds[v] == Fixed
      && rssi[u][v] > t
  }

  /** The same network with the access points on configured channels taken out. */
  function WithoutFixed(kinds: seq<Kind>): (r: seq<Kind>) {
    seq(|kinds|, v requires 0 <= v < |kinds| => if kinds[v] == Fixed then Skipped else kinds[v])
  }

  function Recoloured(kinds: seq<Kind>, a: seq<int>, c: int): (r: seq<int>)
    requires |a| == |kinds|
  {
    seq(|a|, v requires 0 <= v < |a| => if kinds[v] == Fixed then c else a[v])
  }

  /** Fixed channels constrain no other node, but two of them that hear each other rule out every assignment. */
  lemma FixedNodesMatterOnlyToEachOther(kinds: seq<Kind>, rssi: Matrix, t: nat)
    requires Square(rssi, |kinds|)
    ensures Colourable(kinds, rssi, t) <==> !FixedClash(kinds, rssi, t) && Colourable(WithoutFixed(kinds), rssi, t)
  {
    if Colourable(kinds, rssi, t) {
      var a :| Plan(kinds, rssi, t, a);
      assert Plan(WithoutFixed(kinds), rssi, t, Recoloured(kinds, a, SKIPPED_COLOUR));
    }
    if !FixedClash(kinds, rssi, t) && Colourable(WithoutFixed(kinds), rssi, t) {
      var a :| Plan(WithoutFixed(kinds), rssi, t, a);
      var b := Recoloured(kinds, a, 0);
      forall v | 0 <= v < |b| ensures Candidate(kinds[v], b[v]) {
        assert Candidate(WithoutFixed(kinds)[v], a[v]);
      }
      assert Plan(kinds, rssi, t, b);
    }
  }

  // ---- the adjacency matrix -----------------------------------------------------------------

  /** `adj` has an edge exactly where one of the two directions exceeds t. */
  ghost predicate Symmetrised(rssi: Matrix, t: nat, adj: Matrix, n: nat)
    requires Square(rssi, n) && Square(adj, n)
  {
    forall u, v :: 0 <= u < n && 0 <= v < n ==> (adj[u][v] != 0 <==> Exceeds(rssi, t, u, v))
  }

  ghost predicate Exceeds(rssi: Matrix, t: nat, u: nat, v: nat)
    requires u < |rssi| && v < |rssi| && Square(rssi, |rssi|)
  {
    rssi[u][v] > t || rssi[v][u] > t
  }

  /** The first n colours are candidates, and adjacent ones differ; only cells below the diagonal are looked at. */
  ghost predicate ProperUpTo(kinds: seq<Kind>, adj: Matrix, a: seq<int>, n: nat)
    requires Square(adj, |kinds|) && n <= |kinds| && n <= |a|
  {
    && (forall v :: 0 <= v < n ==> Candidate(kinds[v], a[v]))
    && (forall v, u :: 0 <= u < v < n && adj[v][u] != 0 && kinds[u] != Skipped && kinds[v] != Skipped ==> a[u] != a[v])
  }

  lemma ProperIsPlan(kinds: seq<Kind>, rssi: Matrix, t: nat, adj: Matrix, a: seq<int>)
    requires Square(rssi, |kinds|) && Square(adj, |kinds|) && Symmetrised(rssi, t, adj, |kinds|) && |a| == |kinds|
    ensures ProperUpTo(kinds, adj, a, |a|) <==> Plan(kinds, rssi, t, a)
  {
    if ProperUpTo(kinds, adj, a, |a|) {
      forall u, v | 0 <= u < |a| && 0 <= v < |a| && u != v && rssi[u][v] > t
          && kinds[u] != Skipped && kinds[v] != Skipped
        ensures a[u] != a[v]
      {
        assert Exceeds(rssi, t, u, v) && Exceeds(rssi, t, v, u);
      }
    }
    if Plan(kinds, rssi, t, a) {
      forall v, u | 0 <= u < v < |a| && adj[v][u] != 0 && kinds[u] != Skipped && kinds[v] != Skipped
        ensures a[u] != a[v]
      {
        assert Exceeds(rssi, t, v, u);
      }
    }
  }

  // ---- extending a partial assignment ---------------------------------------------------------

  /** No proper assignment begins with these colours. */
  ghost predicate DeadEnd(kinds: seq<Kind>, adj: Matrix, prefix: seq<int>)
    requires Square(adj, |kinds|)
  {
    forall a :: |a| == |kinds| && prefix <= a ==> !ProperUpTo(kinds, adj, a, |kinds|)
  }

  /** Whether colour c is free for vertex v = |prefix|. */
  ghost predicate Free(adj: Matrix, prefix: seq<int>, c: int, n: nat)
    requires Square(adj, n) && |prefix| < n
  {
    forall u :: 0 <= u < |prefix| ==> !(adj[|prefix|][u] != 0 && c == prefix[u])
  }

  /** A free candidate extends a proper prefix. */
  lemma ExtendProper(kinds: seq<Kind>, adj: Matrix, prefix: seq<int>, c: int)
    requires Square(adj, |kinds|) && |prefix| < |kinds| && ProperUpTo(kinds, adj, prefix, |prefix|)
    requires Candidate(kinds[|prefix|], c) && (kinds[|prefix|] == Skipped || Free(adj, prefix, c, |kinds|))
    ensures ProperUpTo(kinds, adj, prefix + [c], |prefix| + 1)
  {
  }

  /** A candidate that is taken leads nowhere. */
  lemma TakenIsDeadEnd(kinds: seq<Kind>, adj: Matrix, prefix: seq<int>, c: int)
    requires Square(adj, |kinds|) && |prefix| < |kinds| && ProperUpTo(kinds, adj, prefix, |prefix|)
    requires kinds[|prefix|] != Skipped && Candidate(kinds[|prefix|], c) && !Free(adj, prefix, c, |kinds|)
    ensures DeadEnd(kinds, adj, prefix + [c])
  {
    var v := |prefix|;
    var u :| 0 <= u < v && adj[v][u] != 0 && c == prefix[u];
    assert kinds[u] != Skipped;
    forall a | |a| == |kinds| && prefix + [c] <= a ensures !ProperUpTo(kinds, adj, a, |kinds|) {
      assert a[u] == (prefix + [c])[u] && a[v] == (prefix + [c])[v];
    }
  }

  /** When every candidate leads nowhere, so does the prefix. */
  lemma AllDeadEnds(kinds: seq<Kind>, adj: Matrix, prefix: seq<int>)
    requires Square(adj, |kinds|) && |prefix| < |kinds|
    requires forall c :: Candidate(kinds[|prefix|], c) ==> DeadEnd(kinds, adj, prefix + [c])
    ensures DeadEnd(kinds, adj, prefix)
  {
    forall a | |a| == |kinds| && prefix <= a ensures !ProperUpTo(kinds, adj, a, |kinds|) {
      var v := |prefix|;
      if Candidate(kinds[v], a[v]) {
        assert prefix + [a[v]] <= a;
        assert DeadEnd(kinds, adj, prefix + [a[v]]);
      }
    }
  }

  /** A dead end at the empty prefix means the graph cannot be coloured. */
  lemma DeadStart(kinds: seq<Kind>, rssi: Matrix, t: nat, adj: Matrix)
    requires Square(rssi, |kinds|) && Square(adj, |kinds|) && Symmetrised(rssi, t, adj, |kinds|)
    requires DeadEnd(kinds, adj, [])
    ensures !Colourable(kinds, rssi, t)
  {
    forall a ensures !Plan(kinds, rssi, t, a) {
      if |a| == |kinds| { ProperIsPlan(kinds, rssi, t, adj, a); }
    }
  }
}
