/** Initial headers download: the block locator, the peer's answer, and the rounds of both. */
module Sync {
  import opened ByteStrings
  import opened HeaderTree
  import opened Batches
  import opened Reorg
  import opened HeadersStores
  import Persistence
  import Blocks
  import Codec

  /** Locator steps go back by the squares of 0, 2, ..., 24. */
  const STEPS := 13
  const DEEPEST := 576

  // ----- the locator -----

  /** The heights of the first `k` locator steps. */
  function LocatorHeights(tip: nat, k: nat): (s: seq<nat>)
    ensures |s| <= k
  {
    if k == 0 then []
    else
      var j := k - 1;
      LocatorHeights(tip, j) + (if j == 0 || tip > 4 * j * j then [tip - 4 * j * j] else [])
  }

  /** The entries are the squares in order, for as long as the height stays positive. */
  lemma {:induction false} LocatorShape(tip: nat, k: nat)
    ensures var s := LocatorHeights(tip, k);
      && (forall j :: 0 <= j < |s| ==> s[j] == tip - 4 * j * j)
      && (forall j :: 0 < j < |s| ==> s[j] > 0)
      && (k > 0 ==> |s| > 0)
      && (|s| < k ==> tip <= 4 * |s| * |s|)
  {
    if k > 0 {
      LocatorShape(tip, k - 1);
      var j, before := k - 1, |LocatorHeights(tip, k - 1)|;
      if before < j {
        assert 4 * before * before <= 4 * j * j by { Squares(before, j); }
      }
    }
  }

  lemma Squares(a: nat, b: nat)
    requires a <= b
    ensures 4 * a * a <= 4 * b * b
    ensures a < b ==> 4 * a * a < 4 * b * b
  {
    var d := b - a;
    SquareOfSum(a, d);
    Positive(a, d);
    Positive(d, d);
  }

  lemma SquareOfSum(a: nat, d: nat)
    ensures 4 * (a + d) * (a + d) == 4 * a * a + 8 * (a * d) + 4 * (d * d)
  {
  }

  lemma Positive(a: nat, b: nat)
    ensures a * b >= 0 && (a > 0 && b > 0 ==> a * b > 0)
  {
  }

  /**
   * Locator coverage: heights start at the tip, strictly decrease and number at most 13.
   * For a shared height `c` at or above the lowest one, the highest entry at or below `c`
   * is `tip - (2k)^2` for the least `k` with `(2k)^2 >= tip - c`; fewer than `8k - 4`
   * headers above it are shared already.
   */
  lemma LocatorCovers(tip: nat, c: nat) returns (k: nat)
    requires c <= tip && (LocatorHeights(tip, STEPS) != [] ==> Last(LocatorHeights(tip, STEPS)) <= c)
    ensures var s := LocatorHeights(tip, STEPS);
      && 0 < |s| <= 13 && s[0] == tip
      && (forall i, j :: 0 <= i < j < |s| ==> s[i] > s[j])
      && k < |s| && s[k] == tip - 4 * k * k <= c
      && (forall j :: 0 <= j < k ==> s[j] > c && 4 * j * j < tip - c)
      && 4 * k * k >= tip - c
      && (k >= 1 ==> c - s[k] < 8 * k - 4)
  {
    hide LocatorHeights;
    var s := LocatorHeights(tip, STEPS);
    LocatorShape(tip, STEPS);
    LocatorDecreases(tip);
    k := 0;
    while s[k] > c
      invariant k < |s| && forall j :: 0 <= j < k ==> s[j] > c
      decreases |s| - k
    {
      k := k + 1;
    }
    forall j | 0 <= j < k ensures 4 * j * j < tip - c {
      assert s[j] == tip - 4 * j * j;
    }
    if k >= 1 {
      assert s[k - 1] == tip - 4 * (k - 1) * (k - 1);
      SquareStep(k);
    }
  }

  lemma LocatorDecreases(tip: nat)
    ensures forall i, j :: 0 <= i < j < |LocatorHeights(tip, STEPS)| ==>
              LocatorHeights(tip, STEPS)[i] > LocatorHeights(tip, STEPS)[j]
  {
    hide LocatorHeights;
    var s := LocatorHeights(tip, STEPS);
    LocatorShape(tip, STEPS);
    forall i, j | 0 <= i < j < |s| ensures s[i] > s[j] {
      Squares(i, j);
      assert s[i] == tip - 4 * i * i && s[j] == tip - 4 * j * j;
    }
  }

  lemma SquareStep(k: nat)
    requires k >= 1
    ensures 4 * k * k - 4 * (k - 1) * (k - 1) == 8 * k - 4
  {
  }

  function Locator(t: Tree): (s: seq<Bytes>)
    requires Valid(t)
  {
    LocatorShape(Tip(t), STEPS);
    var heights := LocatorHeights(Tip(t), STEPS);
    seq(|heights|, i requires 0 <= i < |heights| => BestChain(t)[heights[i]].hash)
  }

  /**
   * The loop of `get_max_headers`: the hashes of the best chain at the tip and 4, 16, ..., 576
   * below it, as far as these heights are positive.
   */
  method GetMaxHeaders(store: HeadersStore) returns (locator: seq<Bytes>)
    requires store.Valid()
    ensures locator == Locator(store.headers)
    ensures var best, n := BestChain(store.headers), |locator|;
      var tip := |best| - 1;
      && 1 <= n <= 13 && (n < 13 ==> tip <= 4 * n * n)
      && forall i :: 0 <= i < n ==>
           && (i == 0 || 4 * i * i < tip)
           && locator[i] == best[tip - 4 * i * i].hash
  {
    hide FullChain, HeaderTree.Valid, Persistence.InStep, LocatorHeights, BestChain, Locator;
    BestTipPlace(store.headers);
    TipOfBest(store.headers);
    var tipHeight: nat := store.headers.chains[store.headers.best].Top();
    ghost var best := BestChain(store.headers);
    LocatorShape(tipHeight, STEPS);
    LocatorStarts(tipHeight);
    locator := [];
    var i := 0;
    ghost var j := 0;
    while i < 25
      invariant i == 2 * j && j <= STEPS
      invariant IsLocator(best, LocatorHeights(tipHeight, j), locator)
      decreases 25 - i
    {
      var height := tipHeight - i * i;
      SquareOfDouble(i, j);
      LocatorNext(tipHeight, j);
      if i == 0 || height > 0 {
        var header := store.GetHeaderForHeight(height);
        locator := locator + [header.value.hash];
      }
      i := i + 2;
      j := j + 1;
    }
    LocatorIs(store.headers, locator);
    LocatorHashes(store.headers);
  }

  lemma SquareOfDouble(i: nat, j: nat)
    requires i == 2 * j
    ensures i * i == 4 * j * j
  {
  }

  lemma LocatorIs(t: Tree, locator: seq<Bytes>)
    requires Valid(t) && IsLocator(BestChain(t), LocatorHeights(Tip(t), STEPS), locator)
    ensures locator == Locator(t)
  {
    hide FullChain, LocatorHeights, BestChain;
  }

  lemma LocatorHashes(t: Tree)
    requires Valid(t)
    ensures var best, locator, n := BestChain(t), Locator(t), |Locator(t)|;
      var tip := |best| - 1;
      && 1 <= n <= 13 && (n < 13 ==> tip <= 4 * n * n)
      && forall i :: 0 <= i < n ==>
           && (i == 0 || 4 * i * i < tip)
           && locator[i] == best[tip - 4 * i * i].hash
  {
    hide FullChain, LocatorHeights, BestChain;
    TipOfBest(t);
    LocatorShape(Tip(t), STEPS);
    var heights := LocatorHeights(Tip(t), STEPS);
    forall i | 0 <= i < |heights|
      ensures heights[i] == Tip(t) - 4 * i * i && (i == 0 || 4 * i * i < Tip(t))
      ensures Locator(t)[i] == BestChain(t)[Tip(t) - 4 * i * i].hash
    {
      Squares(0, i);
    }
  }

  ghost predicate IsLocator(best: seq<Header>, heights: seq<nat>, locator: seq<Bytes>) {
    && |locator| == |heights|
    && forall m :: 0 <= m < |heights| ==> heights[m] < |best| && locator[m] == best[heights[m]].hash
  }

  lemma LocatorStarts(tip: nat)
    ensures LocatorHeights(tip, 0) == []
  {
  }

  lemma LocatorNext(tip: nat, j: nat)
    ensures LocatorHeights(tip, j + 1)
         == LocatorHeights(tip, j) + (if j == 0 || tip > 4 * j * j then [tip - 4 * j * j] else [])
  {
  }

  // ----- the peer -----

  /** Raw headers from genesis on, and how many it sends at most. */
  datatype Peer = Peer(raws: seq<Bytes>, cap: nat)

  function ChainOf(sha256: Blocks.Hash, peer: Peer): (s: seq<Header>)
    requires All80(peer.raws)
    ensures |s| == |peer.raws|
  {
    HeadersOf(sha256, peer.raws)
  }

  function Position(s: seq<Header>, hash: Bytes): (r: Option<nat>)
    ensures r.Some? ==> r.value < |s| && s[r.value].hash == hash
    ensures r.None? ==> forall i :: 0 <= i < |s| ==> s[i].hash != hash
  {
    if s == [] then None
    else if s[0].hash == hash then Some(0)
    else match Position(s[1..], hash) case None => None case Some(i) => Some(i + 1)
  }

  /** Where the answer starts: after the first locator entry on the peer's chain, or after genesis. */
  function StartAfter(s: seq<Header>, locator: seq<Bytes>): (j: nat)
    ensures s != [] ==> j < |s|
  {
    if locator == [] then 0
    else match Position(s, locator[0]) case Some(i) => i case None => StartAfter(s, locator[1..])
  }

  /** The headers of the answer, as a part of the peer's chain. */
  function AnswerEnd(s: seq<Header>, locator: seq<Bytes>, cap: nat): nat {
    Min(StartAfter(s, locator) + 1 + cap, |s|)
  }

  /** The peer's chain starts at our genesis, is linked, repeats no hash, and no two headers collide. */
  ghost predicate Honest(t: Tree, s: seq<Header>) {
    && Valid(t) && s != [] && s[0] == FullChain(t.chains, 0)[0]
    && Linked(s)
    && (forall i, j :: 0 <= i < j < |s| ==> s[i].hash != s[j].hash)
    && (forall k :: 0 <= k < |s| && s[k].hash in t.at ==> HeaderAt(t.chains, t.at[s[k].hash]) == s[k])
  }

  /** A header of the peer that we have stands at its height, on top of the peer's headers before it. */
  lemma {:induction false} PeerHeaderPlace(t: Tree, s: seq<Header>, k: nat)
    requires Honest(t, s) && k < |s| && s[k].hash in t.at
    ensures t.at[s[k].hash].height == k
    ensures forall m :: 0 <= m <= k ==> s[m].hash in t.at
    decreases k
  {
    hide FullChain, GoodChains;
    var loc := t.at[s[k].hash];
    var path := FullChain(t.chains, loc.chain);
    OnItsChain(t, loc);
    SameGenesis(t.chains, loc.chain);
    if k == 0 {
      ChainIndexed(t, 0, 0);
    } else if loc.height > 0 {
      ParentIsFound(t, loc.chain, loc.height);
      ChainIndexed(t, loc.chain, loc.height - 1);
      PeerHeaderPlace(t, s, k - 1);
    }
  }

  /** Our best chain meets the peer's chain at one height exactly if they are the same up to it. */
  lemma SharedAt(t: Tree, s: seq<Header>, h: nat, j: nat)
    requires Honest(t, s) && h < |BestChain(t)| && j < |s| && BestChain(t)[h].hash == s[j].hash
    ensures h == j && BestChain(t)[..h + 1] == s[..h + 1]
  {
    hide FullChain, GoodChains;
    ChainIndexed(t, t.best, h);
    PeerHeaderPlace(t, s, j);
    AncestryIsUnique(t, s, t.best, h);
  }

  /** The height of the highest header our best chain shares with the peer's. */
  ghost function Shared(t: Tree, s: seq<Header>): nat
    requires Valid(t)
  {
    var n := CommonLength(BestChain(t), s);
    if n == 0 then 0 else n - 1
  }

  lemma SharedExactly(t: Tree, s: seq<Header>, h: nat)
    requires Honest(t, s) && h < |BestChain(t)|
    ensures Shared(t, s) < |BestChain(t)| && Shared(t, s) < |s|
    ensures Position(s, BestChain(t)[h].hash) == if h <= Shared(t, s) then Some(h) else None
  {
    hide FullChain, Honest, Position, BestChain, Shared, Valid;
    SharedBelow(t, s, h);
    var found := Position(s, BestChain(t)[h].hash);
    if found.Some? {
      SharedIfFound(t, s, h, found.value);
    }
  }

  lemma SharedBelow(t: Tree, s: seq<Header>, h: nat)
    requires Honest(t, s)
    ensures Valid(t) && Shared(t, s) < |BestChain(t)| && Shared(t, s) < |s|
    ensures h <= Shared(t, s) ==> BestChain(t)[h] == s[h]
  {
    hide FullChain, GoodChains, Indexed, BestChain, CommonLength;
    SharedGenesis(t, s);
    if h <= Shared(t, s) {
      SameElement(BestChain(t), s, CommonLength(BestChain(t), s), h);
    }
  }

  lemma SharedIfFound(t: Tree, s: seq<Header>, h: nat, j: nat)
    requires Honest(t, s) && h < |BestChain(t)| && j < |s| && BestChain(t)[h].hash == s[j].hash
    ensures h == j && h <= Shared(t, s)
  {
    hide FullChain, GoodChains, Indexed, BestChain, CommonLength;
    SharedAt(t, s, h, j);
    CommonAtLeast(BestChain(t), s, h + 1);
  }

  lemma SharedGenesis(t: Tree, s: seq<Header>)
    requires Honest(t, s)
    ensures CommonLength(BestChain(t), s) >= 1
  {
    hide FullChain, GoodChains;
    SameGenesis(t.chains, t.best);
    var ours := BestChain(t);
    assert ours[..1] == [ours[0]] == [s[0]] == s[..1];
    CommonAtLeast(ours, s, 1);
  }

  lemma SameElement(a: seq<Header>, b: seq<Header>, n: nat, h: nat)
    requires h < n <= |a| && n <= |b| && a[..n] == b[..n]
    ensures a[h] == b[h]
  {
    assert a[h] == a[..n][h] && b[h] == b[..n][h];
  }

  /** The answer starts after the highest locator entry we share, or after genesis. */
  lemma {:induction false} AnswerStart(t: Tree, s: seq<Header>, heights: seq<nat>, locator: seq<Bytes>)
    requires Honest(t, s) && |heights| == |locator|
    requires forall i :: 0 <= i < |heights| ==>
               heights[i] < |BestChain(t)| && locator[i] == BestChain(t)[heights[i]].hash
    requires forall i, j :: 0 <= i < j < |heights| ==> heights[i] > heights[j]
    ensures var j := StartAfter(s, locator);
      if heights == [] || Last(heights) > Shared(t, s) then j == 0
      else
        && j in heights && j <= Shared(t, s)
        && forall i :: 0 <= i < |heights| && heights[i] <= Shared(t, s) ==> heights[i] <= j
    decreases |heights|
  {
    hide FullChain, Shared, Position, Linked, GoodChains;
    if heights != [] {
      SharedExactly(t, s, heights[0]);
      if heights[0] > Shared(t, s) {
        AnswerStart(t, s, heights[1..], locator[1..]);
        assert |heights| > 1 ==> Last(heights[1..]) == Last(heights);
      } else {
        assert StartAfter(s, locator) == heights[0];
      }
    }
  }

  /** When the answer reaches above our tip. */
  lemma AnswerReaches(t: Tree, s: seq<Header>, cap: nat)
    requires Honest(t, s) && |s| - 1 > Tip(t) && cap > DEEPEST
    ensures var tip, c, j := Tip(t), Shared(t, s), StartAfter(s, Locator(t));
      && c <= tip && s[j].hash in t.at
      && (j + cap > tip <==> tip - c <= DEEPEST || tip < cap)
  {
    hide FullChain, Valid, Honest, Shared, StartAfter, LocatorHeights, BestChain;
    HonestIsValid(t, s);
    var tip, c, heights := Tip(t), Shared(t, s), LocatorHeights(Tip(t), STEPS);
    TipOfBest(t);
    LocatorShape(tip, STEPS);
    LocatorDecreases(tip);
    SharedExactly(t, s, tip);
    AnswerStart(t, s, heights, Locator(t));
    LowestEntry(tip);
    var j := StartAfter(s, Locator(t));
    SharedHeaderKnown(t, s, j);
    if j != 0 {
      var i :| 0 <= i < |heights| && heights[i] == j;
      Squares(i, 12);
    }
  }

  /** The lowest entry is 576 below the tip, or the tip is not higher than that. */
  lemma LowestEntry(tip: nat)
    ensures var s := LocatorHeights(tip, STEPS);
      && s != [] && (tip > DEEPEST ==> |s| == 13 && Last(s) == tip - DEEPEST)
  {
    LocatorShape(tip, STEPS);
    var n := |LocatorHeights(tip, STEPS)|;
    if n < 13 {
      Squares(n, 12);
    }
  }

  lemma SharedHeaderKnown(t: Tree, s: seq<Header>, j: nat)
    requires Honest(t, s) && j <= Shared(t, s)
    ensures j < |s| && s[j].hash in t.at
  {
    hide FullChain, GoodChains;
    SharedExactly(t, s, 0);
    SharedExactly(t, s, j);
    ChainIndexed(t, t.best, j);
  }

  // ----- connecting the answer -----

  /** Connecting the next header of the peer's chain. */
  lemma PeerHeaderConnects(t: Tree, s: seq<Header>, k: nat)
    requires Honest(t, s) && 0 < k < |s| && s[k - 1].hash in t.at
    ensures Connect(t, s[k]).Some?
    ensures var after := Connect(t, s[k]).value;
      && Honest(after, s) && s[k].hash in after.at && t.at.Keys <= after.at.Keys
      && Tip(after) == (if k > Tip(t) then k else Tip(t))
      && (if k > Tip(t) then Last(BestChain(after)) == s[k] else BestChain(after) == BestChain(t))
  {
    hide FullChain, GoodChains, Linked;
    var h := s[k];
    assert h.prev == s[k - 1].hash by { LinkedAt(s, k); }
    PeerHeaderPlace(t, s, k - 1);
    if h.hash in t.at {
      BestTipPlace(t);
      PeerHeaderPlace(t, s, k);
      ChainIsGood(t.chains, t.at[h.hash].chain);
    } else {
      StaysHonest(t, s, k);
      NewTipOf(t, h);
    }
  }

  /** The peer's next header does not spoil what we know of its chain. */
  lemma StaysHonest(t: Tree, s: seq<Header>, k: nat)
    requires Honest(t, s) && k < |s| && s[k].hash !in t.at && s[k].prev in t.at
    ensures Honest(Attach(t, s[k], t.at[s[k].prev]), s)
  {
    hide FullChain, GoodChains, Linked, Attach;
    var after := Connect(t, s[k]).value;
    ConnectKeepsValid(t, s[k]);
    ConnectAddsOne(t, s[k]);
    FullChainGrows(t.chains, after.chains, 0);
    AttachedHeader(t, s[k]);
  }

  lemma LinkedAt(s: seq<Header>, k: nat)
    requires Linked(s) && 0 < k < |s|
    ensures s[k].prev == s[k - 1].hash
  {
  }

  /** Connecting a stretch of the peer's chain on top of a header we have. */
  lemma {:induction false} StretchConnects(t: Tree, s: seq<Header>, lo: nat, hi: nat, genesis: Bytes)
    requires Honest(t, s) && 0 < lo <= hi <= |s| && s[lo - 1].hash in t.at
    ensures var r := ConnectBatch(t, s[lo..hi], genesis);
      && r.ending == AllConnected && Honest(r.tree, s) && t.at.Keys <= r.tree.at.Keys
      && (if hi - 1 > Tip(t) then Tip(r.tree) == hi - 1 && Last(BestChain(r.tree)) == s[hi - 1]
          else Tip(r.tree) == Tip(t) && BestChain(r.tree) == BestChain(t))
    decreases hi - lo
  {
    hide Honest, Connect, BestChain, Tip;
    KnownTip(t, s, lo - 1);
    if lo < hi {
      PeerHeaderConnects(t, s, lo);
      var next := Connect(t, s[lo]).value;
      assert s[lo..hi][1..] == s[lo + 1..hi];
      StretchConnects(next, s, lo + 1, hi, genesis);
    }
  }

  /** A header of the peer that we have is not above our tip. */
  lemma KnownTip(t: Tree, s: seq<Header>, k: nat)
    requires Honest(t, s) && k < |s| && s[k].hash in t.at
    ensures Valid(t) && k <= Tip(t)
  {
    hide FullChain, GoodChains;
    PeerHeaderPlace(t, s, k);
  }

  // ----- rounds -----

  /** One round: locator, answer, connect. */
  ghost function Round(t: Tree, s: seq<Header>, cap: nat, genesis: Bytes): (r: Connected)
    requires Valid(t) && s != []
    ensures Valid(r.tree)
  {
    var j, end := StartAfter(s, Locator(t)), AnswerEnd(s, Locator(t), cap);
    ConnectBatch(t, s[j + 1..end], genesis)
  }

  /**
   * A round with an honest higher peer raises our tip exactly when the chains fork at
   * most 576 below the tip, or the tip is below the peer's cap. It then leaves us with the
   * peer's own chain up to the new tip, and otherwise with the best chain we had.
   */
  lemma RoundRaisesTipExactly(t: Tree, s: seq<Header>, cap: nat, genesis: Bytes)
    requires Honest(t, s) && |s| - 1 > Tip(t) && cap > DEEPEST
    ensures var r := Round(t, s, cap, genesis);
      && r.ending == AllConnected && Honest(r.tree, s) && t.at.Keys <= r.tree.at.Keys
      && (Tip(r.tree) > Tip(t) <==> Tip(t) - Shared(t, s) <= DEEPEST || Tip(t) < cap)
      && (if Tip(r.tree) > Tip(t) then Tip(r.tree) < |s| && BestChain(r.tree) == s[..Tip(r.tree) + 1]
          else BestChain(r.tree) == BestChain(t))
  {
    hide FullChain, Locator, Shared, StartAfter, Honest, Tip, BestChain, ConnectBatch;
    HonestIsValid(t, s);
    AnswerReaches(t, s, cap);
    var j, end := StartAfter(s, Locator(t)), AnswerEnd(s, Locator(t), cap);
    StretchConnects(t, s, j + 1, end, genesis);
    if end - 1 > Tip(t) {
      BestIsPeers(Round(t, s, cap, genesis).tree, s);
    }
  }

  /** A best tip that is the peer's header makes the best chain the peer's. */
  lemma BestIsPeers(t: Tree, s: seq<Header>)
    requires Honest(t, s) && Tip(t) < |s| && Last(BestChain(t)) == s[Tip(t)]
    ensures BestChain(t) == s[..Tip(t) + 1]
  {
    hide FullChain, GoodChains;
    var ours := BestChain(t);
    AncestryIsUnique(t, s, t.best, Tip(t));
    assert ours[..Tip(t) + 1] == ours;
  }

  /** Once our best chain is a part of the peer's, each round adds a full answer. */
  lemma RoundOnAgreement(t: Tree, s: seq<Header>, cap: nat, genesis: Bytes)
    requires Honest(t, s) && Tip(t) < |s| - 1 && cap > DEEPEST && BestChain(t) == s[..Tip(t) + 1]
    ensures Shared(t, s) == Tip(t)
    ensures Tip(Round(t, s, cap, genesis).tree) > Tip(t)
  {
    hide FullChain, GoodChains, Round;
    assert BestChain(t)[..Tip(t) + 1] == BestChain(t);
    CommonAtLeast(BestChain(t), s, Tip(t) + 1);
    RoundRaisesTipExactly(t, s, cap, genesis);
  }

  ghost function Rounds(t: Tree, s: seq<Header>, cap: nat, genesis: Bytes, n: nat): (after: Tree)
    requires Valid(t) && s != []
    ensures Valid(after)
  {
    if n == 0 then t else Round(Rounds(t, s, cap, genesis, n - 1), s, cap, genesis).tree
  }

  /** A fork deeper than the locator reaches, under a tip above the cap: no round ever helps. */
  lemma {:induction false} DeepForkNeverSyncs(t: Tree, s: seq<Header>, cap: nat, genesis: Bytes, n: nat)
    requires Honest(t, s) && |s| - 1 > Tip(t) && cap > DEEPEST
    requires Tip(t) - Shared(t, s) > DEEPEST && Tip(t) >= cap
    ensures var after := Rounds(t, s, cap, genesis, n);
      Honest(after, s) && BestChain(after) == BestChain(t) && Tip(after) == Tip(t)
  {
    hide FullChain, Honest, Round, Tip;
    HonestIsValid(t, s);
    if n > 0 {
      DeepForkNeverSyncs(t, s, cap, genesis, n - 1);
      var before := Rounds(t, s, cap, genesis, n - 1);
      assert Shared(before, s) == Shared(t, s);
      RoundRaisesTipExactly(before, s, cap, genesis);
      TipOfBest(before);
      TipOfBest(Round(before, s, cap, genesis).tree);
    }
  }

  // ----- a fork that is too deep -----

  /** The hash of the header at height `i` of one of the branches, which share genesis. */
  function Id(branch: byte, i: nat): Bytes {
    [if i == 0 then 0 else branch] + PackLE(i, 2) + seq(29, _ => 0)
  }

  /** `n` headers in a row, from genesis on. */
  function Straight(branch: byte, n: nat): (s: seq<Header>)
    ensures |s| == n
  {
    seq(n, i requires 0 <= i < n => Header(Id(branch, i), if i == 0 then seq(32, _ => 0) else Id(branch, i - 1), []))
  }

  lemma IdsDiffer(a: byte, i: nat, b: byte, j: nat)
    requires i < 0x1_0000 && j < 0x1_0000 && Id(a, i) == Id(b, j)
    ensures i == j && (i > 0 ==> a == b)
  {
    hide PackLE, LittleEndian;
    assert PackLE(i, 2) == Id(a, i)[1..3] && PackLE(j, 2) == Id(b, j)[1..3];
    assert Id(a, i)[0] == Id(b, j)[0];
    Widths();
    UnpackPackLE(i, 2);
    UnpackPackLE(j, 2);
  }

  lemma StraightIsLinked(branch: byte, n: nat)
    requires 0 < n <= 0x1_0000
    ensures var s := Straight(branch, n); Linked(s) && s[0] == Straight(0, 1)[0]
    ensures var s := Straight(branch, n); forall i, j :: 0 <= i < j < |s| ==> s[i].hash != s[j].hash
  {
    hide Id;
    var s := Straight(branch, n);
    assert Id(branch, 0) == Id(0, 0) by { SameGenesisId(branch); }
    forall i, j | 0 <= i < j < |s| ensures s[i].hash != s[j].hash {
      if Id(branch, i) == Id(branch, j) {
        IdsDiffer(branch, i, branch, j);
      }
    }
  }

  lemma SameGenesisId(branch: byte)
    ensures Id(branch, 0) == Id(0, 0)
  {
  }

  /** A store that holds `n` headers in a row. */
  function StraightTree(n: nat): (t: Tree)
    requires n > 0
    ensures Valid(t)
  {
    var genesis := Straight(0, 1)[0];
    RootedIsValid(genesis);
    ConnectBatch(Rooted(genesis), Straight(1, n)[1..], genesis.hash).tree
  }

  lemma StraightTreeIsStraight(n: nat)
    requires 0 < n <= 0x1_0000
    ensures BestChain(StraightTree(n)) == Straight(1, n)
  {
    hide Straight, Honest, FullChain, Tip, BestChain, ConnectBatch;
    var genesis, s := Straight(0, 1)[0], Straight(1, n);
    RootIsHonest(n);
    TipOfRoot(genesis);
    StretchConnects(Rooted(genesis), s, 1, n, genesis.hash);
    assert s[1..n] == s[1..] && s[..n] == s;
    BestIsPeers(StraightTree(n), s);
  }

  lemma StraightTreeHolds(n: nat)
    requires 0 < n <= 0x1_0000
    ensures var t, genesis := StraightTree(n), Straight(0, 1)[0];
      && FullChain(t.chains, 0)[0] == genesis
      && genesis.hash in t.at && HeaderAt(t.chains, t.at[genesis.hash]) == genesis
      && t.at.Keys == {genesis.hash} + Hashes(Straight(1, n)[1..])
  {
    hide Straight, Honest, FullChain, ConnectBatch, Linked, Grows, Valid, Tip, BestChain;
    var genesis, s := Straight(0, 1)[0], Straight(1, n);
    var root, t := Rooted(genesis), StraightTree(n);
    RootIsHonest(n);
    StretchConnects(root, s, 1, n, genesis.hash);
    assert s[1..n] == s[1..] && s[1..][..|s[1..]|] == s[1..];
    BatchAddsExactly(root, s[1..], genesis.hash);
    BatchKeepsHeaders(root, s[1..], genesis.hash, Loc(0, 0));
    GenesisStays(root, t);
  }

  lemma RootIsHonest(n: nat)
    requires 0 < n <= 0x1_0000
    ensures var genesis := Straight(0, 1)[0];
      && Honest(Rooted(genesis), Straight(1, n)) && Straight(1, n)[0] == genesis
      && Valid(Rooted(genesis)) && IsLoc(Rooted(genesis).chains, Loc(0, 0))
      && FullChain(Rooted(genesis).chains, 0)[0] == genesis
  {
    hide Straight, Linked;
    var genesis, s := Straight(0, 1)[0], Straight(1, n);
    RootedIsValid(genesis);
    StraightIsLinked(1, n);
    FirstChain(Rooted(genesis));
  }

  lemma TipOfRoot(genesis: Header)
    ensures Valid(Rooted(genesis)) && Tip(Rooted(genesis)) == 0
    ensures Last(BestChain(Rooted(genesis))) == genesis
  {
    RootedIsValid(genesis);
  }

  lemma GenesisStays(t: Tree, after: Tree)
    requires Valid(t) && Valid(after) && Grows(t.chains, after.chains)
    ensures FullChain(after.chains, 0)[0] == FullChain(t.chains, 0)[0]
  {
    hide FullChain;
    FullChainGrows(t.chains, after.chains, 0);
  }

  /**
   * Such a fork exists: 2001 headers of ours against 2100 of an honest peer that shares
   * genesis alone and answers with at most 2000. We never get any of its headers on top.
   */
  lemma DeepForkExists(n: nat)
    ensures var t, s, genesis := StraightTree(2001), Straight(2, 2100), Straight(0, 1)[0].hash;
      && Honest(t, s) && Tip(t) == 2000 && |s| - 1 == 2099 && Shared(t, s) == 0
      && BestChain(Rounds(t, s, 2000, genesis, n)) == BestChain(t) == Straight(1, 2001)
  {
    hide Straight, Honest, Linked, FullChain, BestChain, Rounds, StraightTree, Shared;
    var t, s, ours := StraightTree(2001), Straight(2, 2100), Straight(1, 2001);
    StraightTreeIsStraight(2001);
    TipOfBest(t);
    BranchesPart(2001, 2100);
    PeerIsHonest(2001, 2100);
    OnlyGenesisShared(t, s);
    DeepForkNeverSyncs(t, s, 2000, Straight(0, 1)[0].hash, n);
  }

  lemma PeerIsHonest(n: nat, m: nat)
    requires 0 < n <= 0x1_0000 && 0 < m <= 0x1_0000
    ensures Honest(StraightTree(n), Straight(2, m))
  {
    hide Straight, Linked, FullChain, StraightTree;
    StraightTreeHolds(n);
    StraightIsLinked(2, m);
    forall k | 0 < k < m ensures Straight(2, m)[k].hash !in StraightTree(n).at {
      PeerHeaderIsNew(n, m, k);
    }
  }

  lemma PeerHeaderIsNew(n: nat, m: nat, k: nat)
    requires 0 < n <= 0x1_0000 && 0 < k < m <= 0x1_0000
    ensures Straight(2, m)[k].hash !in StraightTree(n).at
  {
    hide Straight, StraightTree;
    var ours := Straight(1, n);
    StraightTreeHolds(n);
    BranchesPart(n, m);
    forall h | h in ours[1..] ensures h.hash != Straight(2, m)[k].hash {
      assert h in ours;
    }
  }

  /** Above genesis the two branches have no hash in common. */
  lemma BranchesPart(n: nat, m: nat)
    requires 0 < n <= 0x1_0000 && 0 < m <= 0x1_0000
    ensures var ours, theirs := Straight(1, n), Straight(2, m);
      && (forall j, k :: 0 <= j < n && 0 < k < m ==> ours[j].hash != theirs[k].hash)
      && (forall k :: 0 < k < m ==> Straight(0, 1)[0].hash != theirs[k].hash)
  {
    hide Id;
    var ours, theirs := Straight(1, n), Straight(2, m);
    forall k | 0 < k < m ensures Straight(0, 1)[0].hash != theirs[k].hash {
      if Id(0, 0) == Id(2, k) {
        IdsDiffer(0, 0, 2, k);
      }
    }
    forall j, k | 0 <= j < n && 0 < k < m ensures ours[j].hash != theirs[k].hash {
      if Id(1, j) == Id(2, k) {
        IdsDiffer(1, j, 2, k);
      }
    }
  }

  lemma OnlyGenesisShared(t: Tree, s: seq<Header>)
    requires Valid(t) && |s| > 1 && |BestChain(t)| > 1 && BestChain(t)[1].hash != s[1].hash
    ensures Shared(t, s) == 0
  {
    hide BestChain;
    var n := CommonLength(BestChain(t), s);
    if n > 1 {
      SameElement(BestChain(t), s, n, 1);
    }
  }

  lemma HonestIsValid(t: Tree, s: seq<Header>)
    requires Honest(t, s)
    ensures Valid(t) && s != []
  {
  }

  /**
   * The download loop: it ends with the peer's chain as our best chain, from any store and
   * for any honest higher peer within the condition above. The number of headers still
   * missing falls in every round.
   */
  method DownloadHeaders(store: HeadersStore, peer: Peer)
    requires store.Valid() && All80(peer.raws) && |peer.raws| <= Codec.MAX_UINT64
    requires var s := ChainOf(store.sha256, peer);
      && Honest(store.headers, s) && peer.cap > DEEPEST && |s| - 1 > Tip(store.headers)
      && (Tip(store.headers) - Shared(store.headers, s) <= DEEPEST || Tip(store.headers) < peer.cap)
    modifies store
    ensures store.Valid() && BestChain(store.headers) == ChainOf(store.sha256, peer)
    ensures old(store.headers.at.Keys) <= store.headers.at.Keys
    ensures store.cursor == Persistence.FullCursor(store.headers)
  {
    hide FullChain, Honest, Persistence.InStep, Shared, HeadersOf, BestChain, Tip, Round, HeaderTree.Valid;
    var s := ChainOf(store.sha256, peer);
    var first := true;
    HonestIsValid(store.headers, s);
    while Tip(store.headers) < |s| - 1
      invariant store.Valid() && Honest(store.headers, s) && Tip(store.headers) <= |s| - 1
      invariant old(store.headers.at.Keys) <= store.headers.at.Keys
      invariant if first then store.headers == old(store.headers) && Tip(store.headers) < |s| - 1
                else BestChain(store.headers) == s[..Tip(store.headers) + 1]
                     && store.cursor == Persistence.FullCursor(store.headers)
      decreases |s| - Tip(store.headers)
    {
      ghost var before := store.headers;
      if !first {
        RoundOnAgreement(before, s, peer.cap, store.genesis.hash);
      }
      RoundRaisesTipExactly(before, s, peer.cap, store.genesis.hash);
      DownloadRound(store, peer);
      first := false;
    }
  }

  /** One turn of the loop: the peer's answer to our locator, sent as a message and connected. */
  method DownloadRound(store: HeadersStore, peer: Peer)
    requires store.Valid() && All80(peer.raws) && 0 < |peer.raws| <= Codec.MAX_UINT64
    modifies store
    ensures store.Valid()
    ensures var r := Round(old(store.headers), ChainOf(store.sha256, peer), peer.cap, store.genesis.hash);
      && store.headers == r.tree
      && (r.ending == AllConnected ==> store.cursor == Persistence.FullCursor(store.headers))
  {
    hide FullChain, Locator, StartAfter, Persistence.InStep, ConnectMessage, Codec.HeadersPayload, HeaderTree.Valid;
    hide HeadersOf, Persistence.Unpersisted, ConnectBatch;
    var s := ChainOf(store.sha256, peer);
    var locator := GetMaxHeaders(store);
    var lo, hi := StartAfter(s, locator) + 1, AnswerEnd(s, locator, peer.cap);
    var raws := peer.raws[lo..hi];
    AnswerAsBatch(store.sha256, peer, lo, hi);
    MessageIsBatch(store.sha256, store.headers, raws, store.genesis.hash);
    var message := Codec.HeadersToP2pStruct(raws);
    var stream := new Codec.ByteStream(message);
    var _, _ := store.ConnectHeaders(stream);
  }

  lemma AnswerAsBatch(sha256: Blocks.Hash, peer: Peer, lo: nat, hi: nat)
    requires All80(peer.raws) && lo <= hi <= |peer.raws|
    ensures All80(peer.raws[lo..hi])
    ensures HeadersOf(sha256, peer.raws[lo..hi]) == ChainOf(sha256, peer)[lo..hi]
  {
  }
}
