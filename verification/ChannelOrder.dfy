/** Ordering the candidate channels of an access point by interference score, or at random. */
module ChannelOrder {

  const NUM_USING_CHANNEL: nat := 11
  const OPTIONAL_CHANNEL_NUM: nat := 3

  predicate IsOptional(c: int) { c == 1 || c == 6 || c == 11 }

  /** The optional channels of a list, in order. */
  function Optional(s: seq<int>): (r: seq<int>)
    ensures |r| <= |s|
  {
    if s == [] then []
    else
      var init, c := Optional(s[..|s| - 1]), s[|s| - 1];
      if IsOptional(c) then init + [c] else init
  }

  lemma OptionalSnoc(s: seq<int>, c: int)
    ensures Optional(s + [c]) == if IsOptional(c) then Optional(s) + [c] else Optional(s)
  {
    assert (s + [c])[..|s|] == s;
  }

  lemma {:induction false} OptionalConcat(a: seq<int>, b: seq<int>)
    ensures Optional(a + b) == Optional(a) + Optional(b)
    decreases |b|
  {
    hide Optional, IsOptional;
    if b == [] {
      NoneOptional();
      assert a + b == a;
    } else {
      var n := |b| - 1;
      OptionalConcat(a, b[..n]);
      assert a + b == a + b[..n] + [b[n]] && b == b[..n] + [b[n]];
      OptionalSnoc(a + b[..n], b[n]);
      OptionalSnoc(b[..n], b[n]);
    }
  }

  /** The filter keeps every optional channel as often as it occurs, and nothing else. */
  lemma {:induction false} OptionalCounts(s: seq<int>, c: int)
    ensures multiset(Optional(s))[c] == if IsOptional(c) then multiset(s)[c] else 0
  {
    if s != [] {
      OptionalCounts(s[..|s| - 1], c);
      assert s == s[..|s| - 1] + [s[|s| - 1]];
    }
  }

  /** Channels that are earlier in the filtered list come from earlier positions. */
  lemma {:induction false} OptionalKeepsOrder(s: seq<int>, a: nat, b: nat) returns (i: nat, j: nat)
    requires a < b < |Optional(s)|
    ensures i < j < |s| && s[i] == Optional(s)[a] && s[j] == Optional(s)[b]
  {
    var n := |s| - 1;
    var init := Optional(s[..n]);
    if b < |init| {
      i, j := OptionalKeepsOrder(s[..n], a, b);
    } else {
      j := n;
      i := OptionalHasSource(s[..n], a);
    }
  }

  lemma {:induction false} OptionalHasSource(s: seq<int>, a: nat) returns (i: nat)
    requires a < |Optional(s)|
    ensures i < |s| && s[i] == Optional(s)[a]
  {
    var n := |s| - 1;
    if a < |Optional(s[..n])| {
      i := OptionalHasSource(s[..n], a);
    } else {
      i := n;
    }
  }

  // ---- the channel table --------------------------------------------------------------------

  /** The score table of an access point; entries 1 to 11 are in use. */
  class Rfa {
    const score: array<int>
    const ch: array<int>

    ghost predicate Valid() {
      score.Length == NUM_USING_CHANNEL + 1 && ch.Length == NUM_USING_CHANNEL + 1 && score != ch
    }

    constructor ()
      ensures Valid() && fresh(score) && fresh(ch)
    {
      score := new int[NUM_USING_CHANNEL + 1](_ => 0);
      ch := new int[NUM_USING_CHANNEL + 1](_ => 0);
    }

    ghost function Channels(): (s: seq<int>)
      requires Valid()
      reads ch
      ensures |s| == NUM_USING_CHANNEL
    {
      ch[1..]
    }

    ghost function Scores(): (s: seq<int>)
      requires Valid()
      reads score
      ensures |s| == NUM_USING_CHANNEL
    {
      score[1..]
    }
  }

  /** Each channel with its score. */
  ghost function Zip(ch: seq<int>, sc: seq<int>): (z: seq<(int, int)>)
    requires |ch| == |sc|
    ensures |z| == |ch| && forall i :: 0 <= i < |z| ==> z[i] == (ch[i], sc[i])
  {
    seq(|ch|, i requires 0 <= i < |ch| => (ch[i], sc[i]))
  }

  function UpTo(lo: int, hi: int): (s: seq<int>)
    ensures |s| == if lo <= hi then hi - lo + 1 else 0
    ensures forall i :: 0 <= i < |s| ==> s[i] == lo + i
    decreases hi - lo
  {
    if lo > hi then [] else UpTo(lo, hi - 1) + [hi]
  }

  /** The channels are 1 to 11 in some order. */
  ghost predicate AllChannels(ch: seq<int>) {
    forall c: int :: multiset(ch)[c] == if 1 <= c <= NUM_USING_CHANNEL then 1 else 0
  }

  /** The candidates are 1, 6 and 11 in some order. */
  ghost predicate AutoCandidates(op: seq<int>) {
    |op| == OPTIONAL_CHANNEL_NUM && forall c: int :: multiset(op)[c] == if IsOptional(c) then 1 else 0
  }

  lemma {:induction false} UpToOnce(lo: int, hi: int, c: int)
    ensures multiset(UpTo(lo, hi))[c] == if lo <= c <= hi then 1 else 0
    decreases hi - lo
  {
    if lo <= hi { UpToOnce(lo, hi - 1, c); }
  }

  /** The optional channels of any ordering of 1 to 11 are 1, 6 and 11. */
  lemma OptionalOfAll(ch: seq<int>)
    requires AllChannels(ch)
    ensures AutoCandidates(Optional(ch))
  {
    hide Optional;
    var r := Optional(ch);
    forall c: int ensures multiset(r)[c] == if IsOptional(c) then 1 else 0 { OptionalCounts(ch, c); }
    assert multiset(r) == multiset{1, 6, 11} by {
      forall c: int ensures multiset(r)[c] == multiset{1, 6, 11}[c] {}
    }
    assert |multiset(r)| == |r|;
  }

  /** Three channels of 1 to 11 are the optional ones if and only if any two of them are at least five apart. */
  lemma OptionalIffFiveApart(a: int, b: int, c: int)
    requires 1 <= a < b < c <= 11
    ensures IsOptional(a) && IsOptional(b) && IsOptional(c) <==> b - a >= 5 && c - b >= 5
  {
  }

  /** A full table has eleven entries: the channels 1 to 11, each once. */
  lemma FullTable(ch: seq<int>)
    requires AllChannels(ch)
    ensures |ch| == 11 && forall c: int :: c in ch <==> 1 <= c <= 11
  {
    EachOnce(ch, 1, NUM_USING_CHANNEL);
  }

  lemma EachOnce(ch: seq<int>, lo: int, hi: int)
    requires lo <= hi && forall c: int :: multiset(ch)[c] == if lo <= c <= hi then 1 else 0
    ensures |ch| == hi - lo + 1 && forall c: int :: c in ch <==> lo <= c <= hi
  {
    hide UpTo;
    var all := UpTo(lo, hi);
    assert multiset(ch) == multiset(all) by {
      forall c: int ensures multiset(ch)[c] == multiset(all)[c] { UpToOnce(lo, hi, c); }
    }
    assert |multiset(ch)| == |ch| && |multiset(all)| == |all|;
    forall c: int ensures c in ch <==> lo <= c <= hi { assert c in ch <==> multiset(ch)[c] > 0; }
  }

  /** The candidates, as a sequence of three: each of 1, 6 and 11 is one of them. */
  lemma CandidatesAre(op: seq<int>, c: int)
    requires AutoCandidates(op)
    ensures c in op <==> IsOptional(c)
  {
    assert c in op <==> multiset(op)[c] > 0;
  }

  /** No channel occurs twice in an ordering of 1 to 11. */
  lemma ChannelsDistinct(ch: seq<int>, i: nat, j: nat)
    requires AllChannels(ch) && i < j < |ch|
    ensures ch[i] != ch[j]
  {
    var a, b := ch[..j], ch[j..];
    assert ch == a + b;
    assert multiset(ch)[ch[i]] == multiset(a)[ch[i]] + multiset(b)[ch[i]];
    assert ch[i] == a[i] && ch[j] == b[0];
    assert multiset(a)[ch[i]] > 0 && multiset(b)[ch[j]] > 0;
  }

  // ---- the random order ---------------------------------------------------------------------

  function Abs(x: int): nat { if x < 0 then -x else x }

  /** getRandomNumber, with the value of rand() as a parameter: between the bounds, and every value occurs. */
  function RandomNumber(rand: nat, randMin: int, randMax: int): (r: int)
    ensures randMin <= r <= randMax || randMax <= r <= randMin
    ensures rand <= Abs(randMax - randMin) ==> r == rand + (if randMin < randMax then randMin else randMax)
  {
    rand % (Abs(randMax - randMin) + 1) + (if randMin < randMax then randMin else randMax)
  }

  /** The next values of rand(). */
  method NextRands(n: nat) returns (rands: seq<nat>)
    ensures |rands| == n
  {
    rands := [];
    for i := 0 to n
      invariant |rands| == i
    {
      var rand: nat := *;
      rands := rands + [rand];
    }
  }

  lemma SwapKeepsCounts(s: seq<int>, i: nat, j: nat)
    requires i < |s| && j < |s|
    ensures multiset(s[i := s[j]][j := s[i]]) == multiset(s)
  {
  }

  function Exchanged(t: seq<int>, i: nat, j: nat): (r: seq<int>)
    requires i < |t| && j < |t|
    ensures |r| == |t| && multiset(r) == multiset(t)
  {
    SwapKeepsCounts(t, i, j);
    t[i := t[j]][j := t[i]]
  }

  /** The cards after the draws: each draw exchanges a card of the part not drawn yet with the last one of it. */
  function Shuffled(s: seq<int>, rands: seq<nat>): (t: seq<int>)
    requires |rands| <= |s|
    ensures |t| == |s|
    decreases |rands|
  {
    if rands == [] then s
    else
      var n := |rands| - 1;
      var t, last := Shuffled(s, rands[..n]), |s| - 1 - n;
      Exchanged(t, RandomNumber(rands[n], 0, last), last)
  }

  lemma {:induction false} ShuffledKeepsCounts(s: seq<int>, rands: seq<nat>)
    requires |rands| <= |s|
    ensures multiset(Shuffled(s, rands)) == multiset(s)
    decreases |rands|
  {
    hide RandomNumber, Exchanged;
    if rands != [] {
      var n := |rands| - 1;
      ShuffledKeepsCounts(s, rands[..n]);
    }
  }

  lemma ShuffledStep(s: seq<int>, rands: seq<nat>, n: nat, last: nat)
    requires |rands| == n + 1 <= |s| && last == |s| - 1 - n
    ensures Shuffled(s, rands) == Exchanged(Shuffled(s, rands[..n]), RandomNumber(rands[n], 0, last), last)
  {
    hide RandomNumber, Exchanged;
  }

  lemma Cancel(a: multiset<int>, b: multiset<int>, c: multiset<int>)
    requires a + c == b + c
    ensures a == b
  {
    forall x: int ensures a[x] == b[x] { assert (a + c)[x] == (b + c)[x]; }
  }

  /** Where two orders of the same cards agree at the end, a card of the rest of one is in the rest of the other. */
  lemma FindCard(t: seq<int>, target: seq<int>, m: nat) returns (r: nat)
    requires multiset(t) == multiset(target) && 0 < m <= |t| == |target| && t[m..] == target[m..]
    ensures r < m && t[r] == target[m - 1]
  {
    assert t == t[..m] + t[m..] && target == target[..m] + target[m..];
    assert multiset(t) == multiset(t[..m]) + multiset(t[m..]);
    assert multiset(target) == multiset(target[..m]) + multiset(target[m..]);
    Cancel(multiset(t[..m]), multiset(target[..m]), multiset(t[m..]));
    assert target[..m][m - 1] in multiset(target[..m]);
    assert target[m - 1] in t[..m];
    r :| 0 <= r < m && t[..m][r] == target[m - 1];
  }

  lemma ExchangedTail(t: seq<int>, r: nat, last: nat, target: seq<int>)
    requires r <= last < |t| == |target| && t[last + 1..] == target[last + 1..] && t[r] == target[last]
    ensures Exchanged(t, r, last)[last..] == target[last..]
  {
    var u := Exchanged(t, r, last);
    assert u[last..] == [t[r]] + t[last + 1..] && target[last..] == [target[last]] + target[last + 1..];
  }

  lemma {:induction false} TailsPossible(s: seq<int>, target: seq<int>, k: nat) returns (rands: seq<nat>)
    requires multiset(s) == multiset(target) && |s| == |target| && k <= |s|
    ensures |rands| == k && Shuffled(s, rands)[|s| - k..] == target[|s| - k..]
    decreases k
  {
    hide Shuffled, Exchanged;
    rands := [];
    if k > 0 {
      rands := TailsPossible(s, target, k - 1);
      var t, last := Shuffled(s, rands), |s| - k;
      ShuffledKeepsCounts(s, rands);
      var r := FindCard(t, target, last + 1);
      var more := rands + [r];
      assert more[..k - 1] == rands && more[k - 1] == r;
      ShuffledStep(s, more, k - 1, last);
      ExchangedTail(t, r, last, target);
      rands := more;
    }
  }

  /** Every order of the cards can be drawn. */
  lemma EveryOrderPossible(s: seq<int>, target: seq<int>)
    requires multiset(s) == multiset(target) && |s| == |target|
    ensures exists rands :: |rands| == |s| && Shuffled(s, rands) == target
  {
    hide Shuffled;
    var rands := TailsPossible(s, target, |s|);
    assert Shuffled(s, rands)[0..] == Shuffled(s, rands) && target[0..] == target;
  }

  lemma NothingShuffled(s: seq<int>)
    ensures Shuffled(s, []) == s
  {
  }

  /** The draws. */
  method Shuffle(cards: array<int>, draws: nat, rands: seq<nat>)
    requires draws <= cards.Length && draws == |rands|
    modifies cards
    ensures cards[..] == Shuffled(old(cards[..]), rands)
  {
    hide RandomNumber, Shuffled;
    ghost var s := cards[..];
    NothingShuffled(s);
    for i := 0 to draws
      invariant cards[..] == Shuffled(s, rands[..i])
    {
      var last := cards.Length - 1 - i;
      var r := RandomNumber(rands[i], 0, last);
      ghost var before := cards[..];
      ShuffledStep(s, rands[..i + 1], i, last);
      assert rands[..i + 1][..i] == rands[..i];
      cards[r], cards[last] := cards[last], cards[r];
      assert cards[..] == before[r := before[last]][last := before[r]];
    }
    assert rands[..draws] == rands;
  }

  /** The last k elements, or all of them. */
  function LastOf(s: seq<int>, k: nat): (r: seq<int>)
    ensures |r| == if |s| <= k then |s| else k
    ensures forall i :: 0 <= i < |r| ==> r[i] == s[|s| - |r| + i]
  {
    if |s| <= k then s else s[|s| - k..]
  }

  lemma LastOfCons(c: int, s: seq<int>, k: nat)
    ensures LastOf([c] + s, k) == if |s| < k then [c] + LastOf(s, k) else LastOf(s, k)
  {
  }

  /** The collection: optional channels found from the tail of the cards fill `op` from its end, while there is room. */
  method Collect(cards: array<int>, draws: nat, op: array<int>, opNum: nat) returns (left: nat)
    requires draws <= cards.Length && opNum <= op.Length && op != cards
    modifies op
    ensures left <= opNum && op[left..opNum] == LastOf(Optional(cards[cards.Length - draws..]), opNum)
    ensures op[..left] == old(op[..left]) && op[opNum..] == old(op[opNum..])
  {
    hide Optional, IsOptional, LastOf;
    left := opNum;
    ghost var n, all := cards.Length, cards[..];
    NothingFound(all, opNum);
    for i := 0 to draws
      invariant cards[..] == all && left <= opNum
      invariant op[left..opNum] == LastOf(Optional(all[n - i..]), opNum)
      invariant op[..left] == old(op[..left]) && op[opNum..] == old(op[opNum..])
    {
      OneMoreCard(all, n - i - 1);
      LastOfCons(all[n - i - 1], Optional(all[n - i..]), opNum);
      ghost var before := op[..left];
      left := KeepOptional(cards[cards.Length - 1 - i], op, left, opNum);
      assert op[..left] == before[..left];
    }
  }

  lemma NothingFound(all: seq<int>, k: nat)
    ensures Optional(all[|all|..]) == [] && LastOf([], k) == []
  {
  }

  method KeepOptional(c: int, op: array<int>, left: nat, ghost opNum: nat) returns (left': nat)
    requires left <= opNum <= op.Length
    modifies op
    ensures left' <= opNum
    ensures op[left'..opNum] ==
      if IsOptional(c) && left >= 1 then [c] + old(op[left..opNum]) else old(op[left..opNum])
    ensures op[..left'] == old(op[..left']) && op[opNum..] == old(op[opNum..])
  {
    left' := left;
    if c == 1 || c == 6 || c == 11 {
      if left >= 1 {
        op[left - 1] := c;
        left' := left - 1;
      }
    }
  }

  lemma NoneOptional()
    ensures Optional([]) == []
  {
  }

  lemma OneMoreCard(all: seq<int>, k: nat)
    requires k < |all|
    ensures Optional(all[k..]) ==
      if IsOptional(all[k]) then [all[k]] + Optional(all[k + 1..]) else Optional(all[k + 1..])
  {
    var c := all[k];
    assert [c][..0] == [];
    assert Optional([c]) == if IsOptional(c) then [c] else [];
    hide Optional;
    assert all[k..] == [c] + all[k + 1..];
    OptionalConcat([c], all[k + 1..]);
  }

  /** Some order of the `size` numbers from min on. */
  ghost predicate Deck(cards: seq<int>, min: int, size: nat) {
    |cards| == size && multiset(cards) == multiset(UpTo(min, min + size - 1))
  }

  /** What the draws leave in k places: the optional channels among the last cards. */
  ghost function Drawn(cards: seq<int>, draws: nat, k: nat): (r: seq<int>)
    requires draws <= |cards|
    ensures |r| <= k
  {
    LastOf(Optional(cards[|cards| - draws..]), k)
  }

  /** The cards, laid out and drawn from. */
  method Deal(min: int, size: nat, draws: nat, rands: seq<nat>) returns (cards: array<int>)
    requires draws <= size && draws == |rands|
    ensures fresh(cards) && cards[..] == Shuffled(UpTo(min, min + size - 1), rands) && Deck(cards[..], min, size)
  {
    hide Shuffled;
    cards := new int[size](i => i + min);
    assert cards[..] == UpTo(min, min + size - 1);
    ShuffledKeepsCounts(cards[..], rands);
    Shuffle(cards, draws, rands);
  }

  /** How many cards are drawn. */
  function Draws(numOfGet: int, size: nat): (d: nat)
    ensures d <= size
  {
    if numOfGet < 0 then 0 else if numOfGet > size then size else numOfGet
  }

  /** getRandomWithoutReduplicate, for any range, any number of draws and any random values. */
  method RandomOrder(min: int, max: int, numOfGet: int, op: array<int>, opNum: nat, rands: seq<nat>) returns (got: int)
    requires opNum <= op.Length && |rands| == Draws(numOfGet, Abs(max - min + 1))
    modifies op
    ensures got == if numOfGet > Abs(max - min + 1) then Abs(max - min + 1) else numOfGet
    ensures var cards := Shuffled(UpTo(min, min + Abs(max - min + 1) - 1), rands);
      var drawn := Drawn(cards, |rands|, opNum);
      op[..] == old(op[..opNum - |drawn|]) + drawn + old(op[opNum..])
  {
    hide Deck, LastOf, Optional, Shuffled, UpTo, Abs;
    ghost var before := op[..];
    var arraySize := Abs(max - min + 1);
    got := if numOfGet > arraySize then arraySize else numOfGet;
    var draws := if got < 0 then 0 else got;
    var pArray := Deal(min, arraySize, draws, rands);
    DeckSize(pArray[..], min, arraySize);
    var left := CollectDrawn(pArray, draws, op, opNum);
    Reassemble(before, op[..], left, opNum, Drawn(pArray[..], draws, opNum));
  }

  method CollectDrawn(cards: array<int>, draws: nat, op: array<int>, opNum: nat) returns (left: nat)
    requires draws <= cards.Length && opNum <= op.Length && op != cards
    modifies op
    ensures left <= opNum && op[left..opNum] == Drawn(cards[..], draws, opNum)
    ensures op[..left] == old(op[..left]) && op[opNum..] == old(op[opNum..])
  {
    hide LastOf, Optional;
    assert cards[cards.Length - draws..] == cards[..][cards.Length - draws..];
    left := Collect(cards, draws, op, opNum);
  }

  lemma Reassemble(before: seq<int>, now: seq<int>, left: nat, right: nat, part: seq<int>)
    requires left <= right <= |now| == |before| && now[left..right] == part
    requires now[..left] == before[..left] && now[right..] == before[right..]
    ensures left == right - |part| && now == before[..left] + part + before[right..]
  {
    assert now == now[..left] + now[left..right] + now[right..];
  }

  lemma DeckSize(cards: seq<int>, min: int, size: nat)
    requires Deck(cards, min, size)
    ensures |cards| == size
  {
  }

  /** A full draw of 1 to 11 into three places gives the three optional channels. */
  lemma FullDraw(cards: seq<int>)
    requires multiset(cards) == multiset(UpTo(1, NUM_USING_CHANNEL))
    ensures AutoCandidates(Drawn(cards, |cards|, OPTIONAL_CHANNEL_NUM))
  {
    hide Optional, UpTo;
    forall c: int ensures multiset(cards)[c] == if 1 <= c <= NUM_USING_CHANNEL then 1 else 0 {
      UpToOnce(1, NUM_USING_CHANNEL, c);
    }
    OptionalOfAll(cards);
    assert cards[0..] == cards;
  }

  /** The call for an access point without a positive score. */
  method RandomCandidates(op: array<int>)
    requires op.Length == OPTIONAL_CHANNEL_NUM
    modifies op
    ensures AutoCandidates(op[..])
  {
    hide Drawn, AutoCandidates, Shuffled, UpTo;
    var rands := NextRands(NUM_USING_CHANNEL);
    var got := RandomOrder(1, NUM_USING_CHANNEL, NUM_USING_CHANNEL, op, OPTIONAL_CHANNEL_NUM, rands);
    ghost var all := UpTo(1, NUM_USING_CHANNEL);
    ghost var cards := Shuffled(all, rands);
    ShuffledKeepsCounts(all, rands);
    FullDraw(cards);
    ThreeCandidates(Drawn(cards, |cards|, OPTIONAL_CHANNEL_NUM));
    assert op[..] == Drawn(cards, |cards|, OPTIONAL_CHANNEL_NUM);
  }

  lemma ThreeCandidates(op: seq<int>)
    requires AutoCandidates(op)
    ensures |op| == OPTIONAL_CHANNEL_NUM
  {
  }

  // ---- the order by score -------------------------------------------------------------------

  ghost predicate Ascending(sc: seq<int>) {
    forall i, j :: 0 <= i < j < |sc| ==> sc[i] <= sc[j]
  }

  /** The first n scores are in place. */
  ghost predicate AscendingUpTo(sc: seq<int>, n: nat) {
    forall i, j :: 0 <= i < n && i < j < |sc| ==> sc[i] <= sc[j]
  }

  /** Any two of the candidates stand in the order of their scores in the table z. */
  ghost predicate ByScore(op: seq<int>, z: seq<(int, int)>) {
    forall a, b, p, q :: 0 <= a < b < |op| && p in z && q in z && p.0 == op[a] && q.0 == op[b] ==> p.1 <= q.1
  }

  ghost predicate SomePositive(sc: seq<int>) {
    exists i :: 0 <= i < |sc| && sc[i] > 0
  }

  method LowestFrom(score: array<int>, i: nat) returns (k: nat)
    requires score.Length == NUM_USING_CHANNEL + 1 && i <= NUM_USING_CHANNEL
    ensures i <= k <= NUM_USING_CHANNEL
    ensures forall j :: i <= j <= NUM_USING_CHANNEL ==> score[k] <= score[j]
  {
    k := i;
    for j := i + 1 to NUM_USING_CHANNEL + 1
      invariant i <= k <= NUM_USING_CHANNEL
      invariant forall m :: i <= m < j ==> score[k] <= score[m]
    {
      if score[k] > score[j] { k := j; }
    }
  }

  lemma SwapEntries(ch: seq<int>, sc: seq<int>, i: nat, k: nat, ch': seq<int>, sc': seq<int>)
    requires |ch| == |sc| && i <= k < |ch| && AscendingUpTo(sc, i)
    requires forall j :: i <= j < |sc| ==> sc[k] <= sc[j]
    requires ch' == ch[i := ch[k]][k := ch[i]] && sc' == sc[i := sc[k]][k := sc[i]]
    ensures AscendingUpTo(sc', i + 1) && Rearranged(ch, sc, ch', sc')
  {
    assert multiset(Zip(ch', sc')) == multiset(Zip(ch, sc)) by { SwapPairs(ch, sc, i, k, ch', sc'); }
    assert multiset(ch') == multiset(ch) by { SwapKeepsCounts(ch, i, k); }
    assert AscendingUpTo(sc', i + 1);
  }

  lemma SwapPairs(ch: seq<int>, sc: seq<int>, i: nat, k: nat, ch': seq<int>, sc': seq<int>)
    requires |ch| == |sc| && i <= k < |ch|
    requires ch' == ch[i := ch[k]][k := ch[i]] && sc' == sc[i := sc[k]][k := sc[i]]
    ensures multiset(Zip(ch', sc')) == multiset(Zip(ch, sc))
  {
    var z := Zip(ch, sc);
    assert Zip(ch', sc') == z[i := z[k]][k := z[i]];
  }

  /** The same channels with the same scores, possibly in another order. */
  ghost predicate Rearranged(ch: seq<int>, sc: seq<int>, ch': seq<int>, sc': seq<int>) {
    && |ch| == |sc| && |ch'| == |sc'|
    && multiset(ch') == multiset(ch) && multiset(Zip(ch', sc')) == multiset(Zip(ch, sc))
  }

  lemma RearrangedTwice(ch: seq<int>, sc: seq<int>, ch': seq<int>, sc': seq<int>, ch'': seq<int>, sc'': seq<int>)
    requires Rearranged(ch, sc, ch', sc') && Rearranged(ch', sc', ch'', sc'')
    ensures Rearranged(ch, sc, ch'', sc'')
  {
  }

  lemma AscendingWhole(sc: seq<int>)
    requires AscendingUpTo(sc, |sc|)
    ensures Ascending(sc)
  {
  }

  /** The selection sort: scores ascend, and each channel keeps its score. */
  method SortTable(rfa: Rfa)
    requires rfa.Valid()
    modifies rfa.score, rfa.ch
    ensures Ascending(rfa.Scores())
    ensures Rearranged(old(rfa.Channels()), old(rfa.Scores()), rfa.Channels(), rfa.Scores())
  {
    ghost var ch0, sc0 := rfa.Channels(), rfa.Scores();
    assert Rearranged(ch0, sc0, ch0, sc0);
    assert AscendingUpTo(sc0, 0);
    hide Zip, Ascending, AscendingUpTo, Rearranged;
    for i := 1 to NUM_USING_CHANNEL + 1
      invariant AscendingUpTo(rfa.Scores(), i - 1)
      invariant Rearranged(ch0, sc0, rfa.Channels(), rfa.Scores())
    {
      ghost var ch, sc := rfa.Channels(), rfa.Scores();
      PlaceLowest(rfa, i);
      RearrangedTwice(ch0, sc0, ch, sc, rfa.Channels(), rfa.Scores());
    }
    AscendingWhole(rfa.Scores());
  }

  /** One pass: the lowest remaining score moves to position i. */
  method PlaceLowest(rfa: Rfa, i: nat)
    requires rfa.Valid() && 1 <= i <= NUM_USING_CHANNEL && AscendingUpTo(rfa.Scores(), i - 1)
    modifies rfa.score, rfa.ch
    ensures AscendingUpTo(rfa.Scores(), i)
    ensures Rearranged(old(rfa.Channels()), old(rfa.Scores()), rfa.Channels(), rfa.Scores())
  {
    hide Zip, AscendingUpTo, Rearranged;
    ghost var ch, sc := rfa.Channels(), rfa.Scores();
    var k := LowestFrom(rfa.score, i);
    ghost var ch', sc' := ch[i - 1 := ch[k - 1]][k - 1 := ch[i - 1]], sc[i - 1 := sc[k - 1]][k - 1 := sc[i - 1]];
    forall j | i - 1 <= j < |sc| ensures sc[k - 1] <= sc[j] { assert sc[j] == rfa.score[j + 1]; }
    SwapEntries(ch, sc, i - 1, k - 1, ch', sc');
    if k != i {
      Exchange(rfa, i, k);
    } else {
      assert ch' == ch && sc' == sc;
    }
  }

  method Exchange(rfa: Rfa, i: nat, k: nat)
    requires rfa.Valid() && 1 <= i < k <= NUM_USING_CHANNEL
    modifies rfa.score, rfa.ch
    ensures var ch, sc := old(rfa.Channels()), old(rfa.Scores());
      && rfa.Channels() == ch[i - 1 := ch[k - 1]][k - 1 := ch[i - 1]]
      && rfa.Scores() == sc[i - 1 := sc[k - 1]][k - 1 := sc[i - 1]]
  {
    rfa.score[k], rfa.score[i] := rfa.score[i], rfa.score[k];
    rfa.ch[k], rfa.ch[i] := rfa.ch[i], rfa.ch[k];
  }

  /** The old cells with the found channels written over them from the front, as far as there is room. */
  function Filled(found: seq<int>, cells: seq<int>): (r: seq<int>)
    ensures |r| == |cells|
    ensures forall i :: 0 <= i < |r| ==> r[i] == if i < |found| then found[i] else cells[i]
  {
    if |found| >= |cells| then found[..|cells|] else found + cells[|found|..]
  }

  lemma FilledSnoc(found: seq<int>, c: int, cells: seq<int>, op: seq<int>, k: nat)
    requires op == Filled(found, cells) && k == if |found| <= |cells| then |found| else |cells|
    ensures Filled(found + [c], cells) == if k < |cells| then op[k := c] else op
  {
  }

  lemma FilledNothing(cells: seq<int>)
    ensures Filled([], cells) == cells
  {
  }

  /** The optional channels of any table, in table order, go to the front of the candidates; the rest stay. */
  method TakeOptional(ch: array<int>, op: array<int>)
    requires ch.Length == NUM_USING_CHANNEL + 1 && op.Length == OPTIONAL_CHANNEL_NUM && op != ch
    modifies op
    ensures op[..] == Filled(Optional(ch[1..]), old(op[..]))
  {
    hide Optional, IsOptional, Filled;
    var k := 0;
    ghost var all, cells := ch[1..], op[..];
    NoneOptional();
    FilledNothing(cells);
    assert all[..0] == [];
    for i := 1 to NUM_USING_CHANNEL + 1
      invariant ch[1..] == all
      invariant k == if |Optional(all[..i - 1])| <= |cells| then |Optional(all[..i - 1])| else |cells|
      invariant op[..] == Filled(Optional(all[..i - 1]), cells)
    {
      ghost var done := all[..i - 1];
      assert all[..i] == done + [ch[i]];
      OptionalSnoc(done, ch[i]);
      FilledSnoc(Optional(done), ch[i], cells, op[..], k);
      k := PutOptional(ch[i], op, k);
    }
    assert all[..NUM_USING_CHANNEL] == all;
  }

  method PutOptional(c: int, op: array<int>, k: nat) returns (k': nat)
    requires k <= op.Length
    modifies op
    ensures op[..] == if IsOptional(c) && k < op.Length then old(op[..])[k := c] else old(op[..])
    ensures k' == if IsOptional(c) && k < op.Length then k + 1 else k
  {
    k' := k;
    if c == 1 || c == 6 || c == 11 {
      if k < op.Length {
        op[k] := c;
        k' := k + 1;
      }
    }
  }

  method AnyPositive(score: array<int>) returns (found: bool)
    requires score.Length == NUM_USING_CHANNEL + 1
    ensures found <==> SomePositive(score[1..])
  {
    ghost var sc := score[1..];
    found := false;
    for i := 1 to NUM_USING_CHANNEL + 1
      invariant score[1..] == sc && !found
      invariant forall j :: 0 <= j < i - 1 ==> sc[j] <= 0
    {
      assert score[i] == sc[i - 1];
      if score[i] > 0 { return true; }
    }
  }

  lemma PositiveEntry(score: seq<int>)
    requires |score| == NUM_USING_CHANNEL + 1
    ensures (exists i :: 1 <= i <= 11 && score[i] > 0) <==> SomePositive(score[1..])
  {
    var sc := score[1..];
    if i :| 1 <= i <= 11 && score[i] > 0 { assert sc[i - 1] > 0; }
    if SomePositive(sc) {
      var i :| 0 <= i < |sc| && sc[i] > 0;
      assert score[i + 1] > 0;
    }
  }

  lemma SameChannels(a: seq<int>, b: seq<int>)
    requires AllChannels(a) && multiset(a) == multiset(b)
    ensures AllChannels(b)
  {
  }

  /** In an ascending table the optional channels come out by score. */
  lemma OptionalByScore(ch: seq<int>, sc: seq<int>, z: seq<(int, int)>)
    requires |ch| == |sc| && AllChannels(ch) && Ascending(sc) && multiset(Zip(ch, sc)) == multiset(z)
    ensures ByScore(Optional(ch), z)
  {
    hide Optional;
    var op, now := Optional(ch), Zip(ch, sc);
    forall a, b, p, q | 0 <= a < b < |op| && p in z && q in z && p.0 == op[a] && q.0 == op[b] ensures p.1 <= q.1 {
      var i, j := OptionalKeepsOrder(ch, a, b);
      assert p in multiset(now) && q in multiset(now);
      var m :| 0 <= m < |now| && now[m] == p;
      var n :| 0 <= n < |now| && now[n] == q;
      SamePosition(ch, i, m);
      SamePosition(ch, j, n);
    }
  }

  lemma SamePosition(ch: seq<int>, i: nat, j: nat)
    requires AllChannels(ch) && i < |ch| && j < |ch| && ch[i] == ch[j]
    ensures i == j
  {
    if i < j { ChannelsDistinct(ch, i, j); }
    if j < i { ChannelsDistinct(ch, j, i); }
  }

  /**
   * sort, for any table. When some score is positive the table ascends and its optional channels are put in front of
   * the old candidates; otherwise the table stays and the candidates are 1, 6 and 11 in random order.
   */
  method Order(rfa: Rfa, op: array<int>)
    requires rfa.Valid() && op.Length == OPTIONAL_CHANNEL_NUM && op != rfa.ch && op != rfa.score
    modifies rfa.score, rfa.ch, op
    ensures Rearranged(old(rfa.Channels()), old(rfa.Scores()), rfa.Channels(), rfa.Scores())
    ensures (exists i :: 1 <= i <= 11 && old(rfa.score[i]) > 0) <==> SomePositive(old(rfa.Scores()))
    ensures SomePositive(old(rfa.Scores())) ==>
      Ascending(rfa.Scores()) && op[..] == Filled(Optional(rfa.Channels()), old(op[..]))
    ensures !SomePositive(old(rfa.Scores())) ==>
      rfa.Channels() == old(rfa.Channels()) && rfa.Scores() == old(rfa.Scores()) && AutoCandidates(op[..])
  {
    hide Optional, Zip, Filled, AutoCandidates;
    var positive := AnyPositive(rfa.score);
    PositiveEntry(rfa.score[..]);
    if positive {
      SortTable(rfa);
      TakeOptional(rfa.ch, op);
    } else {
      RandomCandidates(op);
    }
  }

  /** From a table of all eleven channels the candidates are 1, 6 and 11 in the order of their scores. */
  lemma OrderOfFullTable(ch: seq<int>, sc: seq<int>, ch': seq<int>, sc': seq<int>, cells: seq<int>)
    requires AllChannels(ch) && Rearranged(ch, sc, ch', sc') && Ascending(sc') && |cells| == OPTIONAL_CHANNEL_NUM
    ensures AllChannels(ch') && AutoCandidates(Filled(Optional(ch'), cells))
      && ByScore(Filled(Optional(ch'), cells), Zip(ch, sc))
  {
    hide Optional, Zip, ByScore;
    SameChannels(ch, ch');
    OptionalOfAll(ch');
    OptionalByScore(ch', sc', Zip(ch, sc));
    assert Filled(Optional(ch'), cells) == Optional(ch');
  }

  /** From a table without an optional channel, as a table that was zeroed, the candidates stay as they were. */
  lemma OrderOfBareTable(ch: seq<int>, ch': seq<int>, cells: seq<int>)
    requires Optional(ch) == [] && multiset(ch') == multiset(ch)
    ensures Filled(Optional(ch'), cells) == cells
  {
    hide Optional, IsOptional;
    var found := Optional(ch');
    forall c: int ensures multiset(found)[c] == 0 {
      OptionalCounts(ch', c);
      OptionalCounts(ch, c);
    }
    assert forall i :: 0 <= i < |found| ==> multiset(found)[found[i]] > 0;
    FilledNothing(cells);
  }
}
