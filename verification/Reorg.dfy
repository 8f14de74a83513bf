/** Telling a reorganisation from an extension, and replaying it. */
module Reorg {
  import opened ByteStrings
  import opened HeaderTree
  import opened Batches

  datatype NewTip =
    | NoReorg(start: Header, stop: Header)
    | Reorg(start: Header, stop: Header, oldChain: seq<Bytes>, newChain: seq<Bytes>, common: nat)
    | Raised

  function BestChain(t: Tree): (s: seq<Header>)
    requires Valid(t)
    ensures |s| == t.chains[t.best].Top() + 1 && |s| > 0
  {
    FullChain(t.chains, t.best)
  }

  function HashList(s: seq<Header>): (r: seq<Bytes>)
    ensures |r| == |s|
  {
    seq(|s|, i requires 0 <= i < |s| => s[i].hash)
  }

  function Reversed<T>(s: seq<T>): (r: seq<T>)
    ensures |r| == |s|
  {
    seq(|s|, i requires 0 <= i < |s| => s[|s| - 1 - i])
  }

  /** The length of the longest common prefix. */
  function CommonLength(a: seq<Header>, b: seq<Header>): (n: nat)
    ensures n <= |a| && n <= |b| && a[..n] == b[..n]
    ensures n < |a| && n < |b| ==> a[n] != b[n]
  {
    if a == [] || b == [] || a[0] != b[0] then 0 else 1 + CommonLength(a[1..], b[1..])
  }

  lemma {:induction false} CommonAtLeast(a: seq<Header>, b: seq<Header>, n: nat)
    requires n <= |a| && n <= |b| && a[..n] == b[..n]
    ensures CommonLength(a, b) >= n
  {
    if n > 0 {
      assert a[0] == a[..n][0] && b[0] == b[..n][0];
      assert a[1..][..n - 1] == a[..n][1..] && b[1..][..n - 1] == b[..n][1..];
      CommonAtLeast(a[1..], b[1..], n - 1);
    }
  }

  /** The place of the best tip. */
  function BestTip(t: Tree): Loc
    requires t.best < |t.chains| && t.chains[t.best].Top() >= 0
  {
    Loc(t.best, t.chains[t.best].Top())
  }

  lemma BestTipPlace(t: Tree)
    requires Valid(t)
    ensures t.chains[t.best].Top() >= 0 && IsLoc(t.chains, BestTip(t))
    ensures HeaderAt(t.chains, BestTip(t)) == Last(BestChain(t))
  {
    ChainIsGood(t.chains, t.best);
  }

  /** The height of the highest header that two chains share. */
  function HighestCommon(t: Tree, i: nat, j: nat): nat
    requires Valid(t) && i < |t.chains| && j < |t.chains|
  {
    var n := CommonLength(FullChain(t.chains, i), FullChain(t.chains, j));
    if n == 0 then 0 else n - 1
  }

  /**
   * `find_common_parent`: the highest common header of the new best chain and the chain
   * that ends in the old tip; height 0 when the old tip is no chain's tip any more.
   */
  ghost function CommonHeight(after: Tree, oldTip: Loc): nat
    requires Valid(after) && IsLoc(after.chains, oldTip)
  {
    if IsTip(after, oldTip) then HighestCommon(after, after.best, oldTip.chain) else 0
  }

  /** The hashes from the tip at `loc` down to, but without, the height `common`. */
  ghost function Branch(t: Tree, loc: Loc, common: nat): seq<Bytes>
    requires Valid(t) && IsLoc(t.chains, loc) && common <= loc.height
  {
    Reversed(HashList(FullChain(t.chains, loc.chain)[common + 1..loc.height + 1]))
  }

  /** `connect_headers_reorg_safe` on a list of headers, not empty. */
  ghost function ReorgSafe(t: Tree, batch: seq<Header>, genesis: Bytes): (Tree, NewTip)
    requires Valid(t) && HasGenesis(t, genesis) && batch != []
  {
    var r := ConnectBatch(t, batch, genesis);
    var after := r.tree;
    if r.ending != AllConnected then (after, Raised)
    else
      BestTipPlace(t);
      BestTipPlace(after);
      var oldTip := BestTip(t);
      BatchKeepsHeaders(t, batch, genesis, oldTip);
      var newTip := BestTip(after);
      if |t.chains| < |after.chains| then
        var common := CommonHeight(after, oldTip);
        if newTip.height <= oldTip.height || common >= oldTip.height then (after, Raised)
        else (after, Reorg(BestChain(after)[common + 1], Last(BestChain(after)),
                           Branch(after, oldTip, common), Branch(after, newTip, common), common))
      else
        BatchAddsExactly(t, batch, genesis);
        FirstIsIn(batch);
        (after, NoReorg(HeaderAt(after.chains, after.at[batch[0].hash]), Last(BestChain(after))))
  }

  lemma FirstIsIn(batch: seq<Header>)
    requires batch != []
    ensures batch[0].hash in Hashes(batch[..|batch|])
  {
    assert batch[..|batch|] == batch;
  }

  // ----- replaying a reported reorganisation -----

  /** The old best chain is still there, as the part of its chain up to the old tip. */
  lemma OldBestChain(t: Tree, batch: seq<Header>, genesis: Bytes)
    requires Valid(t) && HasGenesis(t, genesis)
    ensures var after := ConnectBatch(t, batch, genesis).tree;
      && t.best < |after.chains| && t.chains[t.best].Top() < |FullChain(after.chains, t.best)|
      && BestChain(t) == FullChain(after.chains, t.best)[..t.chains[t.best].Top() + 1]
  {
    hide FullChain, ConnectBatch;
    var after := ConnectBatch(t, batch, genesis).tree;
    BatchAddsExactly(t, batch, genesis);
    FullChainGrows(t.chains, after.chains, t.best);
  }

  lemma BranchUndone(s: seq<Header>, common: nat, top: nat)
    requires common <= top < |s|
    ensures HashList(s[..top + 1]) == HashList(s[..common + 1]) + Reversed(Reversed(HashList(s[common + 1..top + 1])))
  {
  }

  /** Below the reported height the two best chains agree. */
  lemma CommonPart(after: Tree, oldTip: Loc)
    requires Valid(after) && IsLoc(after.chains, oldTip)
    ensures var common := CommonHeight(after, oldTip);
      && common < |BestChain(after)| && common < |FullChain(after.chains, oldTip.chain)|
      && BestChain(after)[..common + 1] == FullChain(after.chains, oldTip.chain)[..common + 1]
      && BestChain(after)[common] == FullChain(after.chains, oldTip.chain)[common]
  {
    hide FullChain;
    SameGenesis(after.chains, after.best);
    SameGenesis(after.chains, oldTip.chain);
    var a, b := BestChain(after), FullChain(after.chains, oldTip.chain);
    assert a[..1] == [a[0]] == [b[0]] == b[..1];
    var common := CommonHeight(after, oldTip);
    assert a[common] == a[..common + 1][common] && b[common] == b[..common + 1][common];
  }

  lemma {:induction false} SameGenesis(chains: seq<Chain>, i: nat)
    requires GoodChains(chains) && i < |chains|
    ensures FullChain(chains, i) != [] && FullChain(chains, i)[0] == FullChain(chains, 0)[0]
    decreases i
  {
    ChainIsGood(chains, i);
    if i > 0 {
      SameGenesis(chains, chains[i].parent);
    }
  }

  /**
   * Whatever the batch was, a reported reorganisation can be replayed: taking the old
   * branch off the old best chain and putting the reverse of the new one on gives the new
   * best chain. Both branches start at the tip and end above the common height. The start
   * header is the lowest of the new branch, its parent the common header, and the stop
   * header the new best tip. All headers of the batch have been connected.
   */
  lemma ReorgReplays(t: Tree, batch: seq<Header>, genesis: Bytes)
    requires Valid(t) && HasGenesis(t, genesis) && batch != []
    requires ReorgSafe(t, batch, genesis).1.Reorg?
    ensures var (after, tip) := ReorgSafe(t, batch, genesis);
      var before, now := HashList(BestChain(t)), HashList(BestChain(after));
      && tip.common < |before| - 1 && |before| < |now|
      && |tip.oldChain| == |before| - 1 - tip.common && |tip.newChain| == |now| - 1 - tip.common
      && before == before[..tip.common + 1] + Reversed(tip.oldChain)
      && now == before[..tip.common + 1] + Reversed(tip.newChain)
      && tip.start == BestChain(after)[tip.common + 1] && tip.start.hash == Last(tip.newChain)
      && tip.start.prev == before[tip.common] && tip.stop == Last(BestChain(after))
      && Hashes(batch) <= after.at.Keys
  {
    hide FullChain, ConnectBatch, Reversed, HashList, CommonHeight, BestChain;
    var after := ConnectBatch(t, batch, genesis).tree;
    OldBestChain(t, batch, genesis);
    BestTipPlace(t);
    BestTipPlace(after);
    BatchKeepsHeaders(t, batch, genesis, BestTip(t));
    var oldTip := BestTip(t);
    var common := CommonHeight(after, oldTip);
    CommonPart(after, oldTip);
    var was, now := FullChain(after.chains, t.best), FullChain(after.chains, after.best);
    assert now == BestChain(after) by { BestIsFull(after); }
    ReplayedHashes(was, now, common, oldTip.height);
    PrefixHashes(BestChain(t), common + 1);
    assert now[..|now|] == now;
    LowestOfBranch(now, common);
    AllOfBatchIn(t, batch, genesis);
    ChainLinked(after.chains, after.best, common + 1);
  }

  lemma LowestOfBranch(s: seq<Header>, common: nat)
    requires common + 1 < |s|
    ensures Last(Reversed(HashList(s[common + 1..]))) == s[common + 1].hash
  {
  }

  lemma AllOfBatchIn(t: Tree, batch: seq<Header>, genesis: Bytes)
    requires Valid(t) && HasGenesis(t, genesis) && ConnectBatch(t, batch, genesis).ending == AllConnected
    ensures Hashes(batch) <= ConnectBatch(t, batch, genesis).tree.at.Keys
  {
    hide Valid, ConnectBatch;
    BatchAddsExactly(t, batch, genesis);
    assert batch[..|batch|] == batch;
  }

  /**
   * A plain new tip starts at the first header of the batch and stops at the best tip, for any
   * batch; all its headers have been connected.
   */
  lemma NewTipReported(t: Tree, batch: seq<Header>, genesis: Bytes)
    requires Valid(t) && HasGenesis(t, genesis) && batch != []
    requires ReorgSafe(t, batch, genesis).1.NoReorg?
    ensures var (after, tip) := ReorgSafe(t, batch, genesis);
      && tip.start.hash == batch[0].hash && batch[0].hash in after.at
      && IsLoc(after.chains, after.at[batch[0].hash]) && tip.start == HeaderAt(after.chains, after.at[batch[0].hash])
      && tip.stop == Last(BestChain(after)) && Hashes(batch) <= after.at.Keys
  {
    hide ConnectBatch, BestChain, GoodChains;
    BatchAddsExactly(t, batch, genesis);
    AllOfBatchIn(t, batch, genesis);
    FirstIsIn(batch);
  }

  lemma BestIsFull(t: Tree)
    requires Valid(t)
    ensures BestChain(t) == FullChain(t.chains, t.best)
  {
  }

  /** Undoing one branch and replaying the other, on the lists of hashes. */
  lemma ReplayedHashes(was: seq<Header>, now: seq<Header>, common: nat, top: nat)
    requires common < top < |was| && common < |now| && now[..common + 1] == was[..common + 1]
    ensures var before := HashList(was[..top + 1]);
      && before == before[..common + 1] + Reversed(Reversed(HashList(was[common + 1..top + 1])))
      && HashList(now) == before[..common + 1] + Reversed(Reversed(HashList(now[common + 1..])))
      && now[common].hash == before[common]
  {
    hide Reversed, HashList;
    BranchUndone(was, common, top);
    BranchUndone(now, common, |now| - 1);
    assert now[..|now|] == now && now[common + 1..|now|] == now[common + 1..];
    PrefixHashes(was[..top + 1], common + 1);
    assert was[..top + 1][..common + 1] == was[..common + 1];
    assert now[common] == now[..common + 1][common] && was[common] == was[..common + 1][common];
  }

  lemma PrefixHashes(s: seq<Header>, n: nat)
    requires n <= |s|
    ensures HashList(s)[..n] == HashList(s[..n])
    ensures forall i :: 0 <= i < |s| ==> HashList(s)[i] == s[i].hash
  {
  }

  // ----- the best chain after a batch -----

  function Tip(t: Tree): nat
    requires Valid(t)
  {
    BestTipPlace(t);
    t.chains[t.best].Top()
  }

  lemma TipOfBest(t: Tree)
    requires Valid(t)
    ensures Tip(t) == |BestChain(t)| - 1
  {
  }

  lemma NewBest(t: Tree, h: Header)
    requires Valid(t) && h.hash !in t.at && h.prev in t.at
    ensures var after, parent := Attach(t, h, t.at[h.prev]), t.at[h.prev];
      && t.best < |t.chains| && after.best < |after.chains|
      && after.at[h.hash] == Loc(if IsTip(t, parent) then parent.chain else |t.chains|, parent.height + 1)
      && (if parent.height + 1 > t.chains[t.best].Top()
          then after.best == after.at[h.hash].chain && after.chains[after.best].Top() == parent.height + 1
               && Last(after.chains[after.best].hdrs) == h
          else after.best == t.best && after.chains[t.best] == t.chains[t.best])
  {
  }

  /** A new header becomes the best tip exactly if it is higher; else the best chain stays. */
  lemma NewTipOf(t: Tree, h: Header)
    requires Valid(t) && h.hash !in t.at && h.prev in t.at
    ensures var after, k := Attach(t, h, t.at[h.prev]), t.at[h.prev].height + 1;
      && Valid(after)
      && (if k > Tip(t) then Tip(after) == k && Last(BestChain(after)) == h
          else Tip(after) == Tip(t) && BestChain(after) == BestChain(t))
      && after.best == (if k > Tip(t) then after.at[h.hash].chain else t.best)
  {
    hide FullChain, GoodChains, Attach;
    var after := Attach(t, h, t.at[h.prev]);
    ConnectKeepsValid(t, h);
    ConnectAddsOne(t, h);
    FullChainGrows(t.chains, after.chains, t.best);
    BestTipPlace(t);
    BestTipPlace(after);
    NewBest(t, h);
  }

  // ----- when the reported height is right -----

  /** Nothing new in the batch stands on the header `hash`. */
  ghost predicate NothingNewOn(t: Tree, batch: seq<Header>, hash: Bytes) {
    forall i :: 0 <= i < |batch| && batch[i].prev == hash ==> batch[i].hash in t.at
  }

  /** Two headers with one hash are one header. */
  ghost predicate NoCollisions(batch: seq<Header>) {
    forall i, j :: 0 <= i < j < |batch| && batch[i].hash == batch[j].hash ==> batch[i] == batch[j]
  }

  /** The tip of a chain is one no longer exactly if the batch brings a header on top of it. */
  lemma {:induction false} TipSurvivesExactly(t: Tree, batch: seq<Header>, genesis: Bytes, loc: Loc)
    requires Valid(t) && HasGenesis(t, genesis) && NoCollisions(batch)
    requires IsLoc(t.chains, loc) && IsTip(t, loc) && ConnectBatch(t, batch, genesis).ending == AllConnected
    ensures IsTip(ConnectBatch(t, batch, genesis).tree, loc)
       <==> NothingNewOn(t, batch, HeaderAt(t.chains, loc).hash)
    decreases |batch|
  {
    hide Valid, Connect, NothingNewOn, IsTip;
    var hash := HeaderAt(t.chains, loc).hash;
    if batch == [] {
      assert NothingNewOn(t, batch, hash) by { NothingOnEmpty(t, hash); }
    } else {
      var h, rest := batch[0], batch[1..];
      FirstOfBatch(t, batch, genesis);
      ConnectKeepsValid(t, h);
      ConnectAddsOne(t, h);
      var next := Connect(t, h).value;
      FirstOnTip(t, h, loc);
      FirstOrRest(t, batch, hash);
      if h.hash !in t.at && h.prev == hash {
        BuriedStaysBuried(next, rest, genesis, loc);
      } else {
        TipSurvivesExactly(next, rest, genesis, loc);
      }
    }
  }

  lemma NothingOnEmpty(t: Tree, hash: Bytes)
    ensures NothingNewOn(t, [], hash)
  {
  }

  lemma FirstOfBatch(t: Tree, batch: seq<Header>, genesis: Bytes)
    requires Valid(t) && HasGenesis(t, genesis) && batch != []
    requires ConnectBatch(t, batch, genesis).ending == AllConnected
    ensures Connect(t, batch[0]).Some? && Valid(Connect(t, batch[0]).value)
    ensures ConnectBatch(Connect(t, batch[0]).value, batch[1..], genesis)
         == ConnectBatch(t, batch, genesis).(done := ConnectBatch(Connect(t, batch[0]).value, batch[1..], genesis).done)
  {
    hide Valid, Attach;
    ConnectKeepsValid(t, batch[0]) by {
      assert Connect(t, batch[0]).Some?;
    }
  }

  lemma FirstOnTip(t: Tree, h: Header, loc: Loc)
    requires Valid(t) && IsLoc(t.chains, loc) && IsTip(t, loc) && Connect(t, h).Some?
    ensures IsTip(Connect(t, h).value, loc) <==> h.prev != HeaderAt(t.chains, loc).hash || h.hash in t.at
  {
  }

  /** What is new on a header in a batch is its first header, or new in the rest of it. */
  lemma FirstOrRest(t: Tree, batch: seq<Header>, hash: Bytes)
    requires batch != [] && NoCollisions(batch) && Valid(t) && Connect(t, batch[0]).Some?
    ensures NoCollisions(batch[1..])
    ensures NothingNewOn(t, batch, hash) <==>
              (batch[0].prev == hash ==> batch[0].hash in t.at)
              && (NothingNewOn(Connect(t, batch[0]).value, batch[1..], hash))
  {
    hide Valid, Connect;
    var h, rest, next := batch[0], batch[1..], Connect(t, batch[0]).value;
    ConnectAddsOne(t, h);
    assert forall i :: 0 <= i < |rest| ==> rest[i] == batch[i + 1];
    if NothingNewOn(next, rest, hash) && (h.prev == hash ==> h.hash in t.at) {
      forall i | 0 <= i < |batch| && batch[i].prev == hash ensures batch[i].hash in t.at {
        if i > 0 {
          assert rest[i - 1].hash in next.at;
        }
      }
    }
  }

  /** Chains do not get shorter. */
  lemma BuriedStaysBuried(t: Tree, batch: seq<Header>, genesis: Bytes, loc: Loc)
    requires Valid(t) && HasGenesis(t, genesis) && IsLoc(t.chains, loc) && !IsTip(t, loc)
    ensures !IsTip(ConnectBatch(t, batch, genesis).tree, loc)
  {
    hide Valid, ConnectBatch;
    BatchAddsExactly(t, batch, genesis);
  }

  /** A header that both chains have is below their common length, at one height. */
  lemma SharedHeader(t: Tree, batch: seq<Header>, genesis: Bytes, i: nat, j: nat)
    requires Valid(t) && HasGenesis(t, genesis) && i < |BestChain(t)|
    requires var after := ConnectBatch(t, batch, genesis).tree;
      j < |BestChain(after)| && BestChain(t)[i].hash == BestChain(after)[j].hash
    ensures i == j < CommonLength(BestChain(ConnectBatch(t, batch, genesis).tree), BestChain(t))
  {
    hide FullChain, ConnectBatch, Indexed, GoodChains, Grows;
    var after := ConnectBatch(t, batch, genesis).tree;
    OldBestChain(t, batch, genesis);
    BatchAddsExactly(t, batch, genesis);
    var before, now, whole := BestChain(t), BestChain(after), FullChain(after.chains, t.best);
    assert before[i] == whole[i];
    ChainIndexed(after, t.best, i);
    ChainIndexed(after, after.best, j);
    ChainsShareBelow(after, t.best, after.best, i);
    assert now[..i + 1] == before[..i + 1];
    CommonAtLeast(now, before, i + 1);
  }

  /** The reported height is the highest common one as long as the old tip is a tip, and else 0. */
  lemma ReportedHeight(t: Tree, batch: seq<Header>, genesis: Bytes)
    requires Valid(t) && HasGenesis(t, genesis) && batch != []
    requires ReorgSafe(t, batch, genesis).1.Reorg?
    ensures var (after, tip) := ReorgSafe(t, batch, genesis);
      var n := CommonLength(BestChain(after), BestChain(t));
      && after == ConnectBatch(t, batch, genesis).tree
      && n >= 1 && tip.common == if IsTip(after, BestTip(t)) then n - 1 else 0
  {
    hide FullChain, ConnectBatch, Grows, GoodChains, Indexed;
    var after := ConnectBatch(t, batch, genesis).tree;
    OldBestChain(t, batch, genesis);
    BestTipPlace(t);
    BatchKeepsHeaders(t, batch, genesis, BestTip(t));
    CommonPart(after, BestTip(t));
    var before, now, whole := BestChain(t), BestChain(after), FullChain(after.chains, t.best);
    SameGenesis(after.chains, after.best);
    SameGenesis(after.chains, t.best);
    assert now[..1] == [now[0]] == [before[0]] == before[..1];
    CommonAtLeast(now, before, 1);
    if IsTip(after, BestTip(t)) {
      assert whole[..|whole|] == whole == before;
    }
  }

  /** What a report should say of a batch that turned the best chain `before` into `now`. */
  ghost predicate IsRight(before: seq<Header>, now: seq<Header>, tip: NewTip) {
    if before <= now then tip.NoReorg? else tip.Reorg? && tip.common == CommonLength(now, before) - 1
  }

  /**
   * When the height that is reported is that of the highest common header: exactly if the
   * branches have no header in common, and exactly if the old tip is still the tip of a
   * chain, that is, if nothing new in the batch stands on it. When something does, the
   * reported height is 0, which is right only for chains that share genesis alone. Any batch
   * is allowed here, also one that is no chain.
   */
  lemma ReorgIsExact(t: Tree, batch: seq<Header>, genesis: Bytes)
    requires Valid(t) && HasGenesis(t, genesis) && batch != []
    requires ReorgSafe(t, batch, genesis).1.Reorg?
    ensures var (after, tip) := ReorgSafe(t, batch, genesis);
      var before, now := BestChain(t), BestChain(after);
      var n := CommonLength(now, before);
      var exact := tip.common == n - 1;
      && (exact <==> forall i, j :: tip.common < i < |before| && tip.common < j < |now| ==>
                       before[i].hash != now[j].hash)
      && (exact <==> IsRight(before, now, tip))
      && (exact <==> IsTip(after, BestTip(t)) || n == 1)
      && (NoCollisions(batch) ==> (exact <==> NothingNewOn(t, batch, Last(before).hash) || n == 1))
  {
    hide FullChain, ConnectBatch, BestChain, NoCollisions, NothingNewOn, CommonHeight, IsTip;
    ReportedHeight(t, batch, genesis);
    var (after, tip) := ReorgSafe(t, batch, genesis);
    var before, now := BestChain(t), BestChain(after);
    var n := CommonLength(now, before);
    forall i, j | tip.common < i < |before| && tip.common < j < |now| && before[i].hash == now[j].hash
      ensures tip.common < n - 1
    {
      SharedHeader(t, batch, genesis, i, j);
    }
    if tip.common < n - 1 {
      assert before[n - 1] == before[..n][n - 1] && now[n - 1] == now[..n][n - 1];
    }
    if before <= now {
      assert now[..|before|] == before == before[..|before|];
      CommonAtLeast(now, before, |before|);
      TipOfBest(t);
    }
    if NoCollisions(batch) {
      OldTip(t);
      TipSurvivesExactly(t, batch, genesis, BestTip(t));
    }
  }

  lemma OldTip(t: Tree)
    requires Valid(t)
    ensures t.chains[t.best].Top() >= 0 && IsTip(t, BestTip(t)) && IsLoc(t.chains, BestTip(t))
    ensures HeaderAt(t.chains, BestTip(t)) == Last(BestChain(t))
  {
    BestTipPlace(t);
  }

  // ----- when a reorganisation is reported -----

  /** Each header's parent is the one before it, as in an answer to getheaders. */
  ghost predicate Linear(batch: seq<Header>) {
    Linked(batch)
  }

  lemma AttachCount(t: Tree, h: Header)
    requires Valid(t) && h.hash !in t.at && h.prev in t.at
    ensures |Attach(t, h, t.at[h.prev]).chains| == |t.chains| + (if IsTip(t, t.at[h.prev]) then 0 else 1)
    ensures IsTip(Attach(t, h, t.at[h.prev]), Attach(t, h, t.at[h.prev]).at[h.hash])
  {
  }

  /** How many headers at the front of a batch are known already. */
  function Known(t: Tree, batch: seq<Header>): (n: nat)
    ensures n <= |batch| && (n < |batch| ==> batch[n].hash !in t.at)
    ensures forall i :: 0 <= i < n ==> batch[i].hash in t.at
  {
    if batch == [] || batch[0].hash !in t.at then 0 else 1 + Known(t, batch[1..])
  }

  /** On top of a tip a linear batch only lengthens a chain. */
  lemma {:induction false} OnTopOfTip(t: Tree, batch: seq<Header>, genesis: Bytes)
    requires Valid(t) && HasGenesis(t, genesis) && Linear(batch)
    requires ConnectBatch(t, batch, genesis).ending == AllConnected
    requires batch != [] && batch[0].hash !in t.at && batch[0].prev in t.at && IsTip(t, t.at[batch[0].prev])
    requires forall i, j :: 0 <= i < j < |batch| ==> batch[i].hash != batch[j].hash
    requires forall i :: 0 <= i < |batch| ==> batch[i].hash !in t.at
    ensures |ConnectBatch(t, batch, genesis).tree.chains| == |t.chains|
    decreases |batch|
  {
    hide Valid, Attach;
    AttachCount(t, batch[0]);
    ConnectKeepsValid(t, batch[0]);
    ConnectAddsOne(t, batch[0]);
    var next := Connect(t, batch[0]).value;
    if |batch| > 1 {
      assert batch[1].prev == batch[0].hash;
      OnTopOfTip(next, batch[1..], genesis);
    } else {
      assert batch[1..] == [];
    }
  }

  lemma {:induction false} SkipKnown(t: Tree, batch: seq<Header>, genesis: Bytes, n: nat)
    requires Valid(t) && n <= |batch| && forall i :: 0 <= i < n ==> batch[i].hash in t.at
    ensures ConnectBatch(t, batch, genesis)
         == ConnectBatch(t, batch[n..], genesis).(done := ConnectBatch(t, batch[n..], genesis).done + n)
    decreases n
  {
    hide Valid;
    if n > 0 {
      SkipKnown(t, batch[1..], genesis, n - 1);
      assert batch[1..][n - 1..] == batch[n..];
    } else {
      assert batch[0..] == batch;
    }
  }

  /** The new headers of the batch come after the known ones, and none is repeated. */
  ghost predicate Fresh(t: Tree, batch: seq<Header>) {
    && (forall i :: Known(t, batch) <= i < |batch| ==> batch[i].hash !in t.at)
    && (forall i, j :: 0 <= i < j < |batch| ==> batch[i].hash != batch[j].hash)
  }

  /**
   * For the linear answer of a peer: the number of chains rises exactly when the first
   * new header's parent is no tip. That is all that decides between the two reports.
   */
  lemma ChainsRiseExactly(t: Tree, batch: seq<Header>, genesis: Bytes)
    requires Valid(t) && HasGenesis(t, genesis) && Linear(batch) && Fresh(t, batch)
    requires Known(t, batch) < |batch| && ConnectBatch(t, batch, genesis).ending == AllConnected
    ensures var n, after := Known(t, batch), ConnectBatch(t, batch, genesis).tree;
      && batch[n].prev in t.at
      && |after.chains| == |t.chains| + (if IsTip(t, t.at[batch[n].prev]) then 0 else 1)
      && (!IsTip(t, t.at[batch[n].prev]) ==> forall i :: 0 <= i < |t.chains| ==> after.chains[i] == t.chains[i])
  {
    hide Valid, Attach, Known;
    var n := Known(t, batch);
    var rest := batch[n..];
    SkipKnown(t, batch, genesis, n);
    PrevIsKnown(t, rest, genesis);
    if IsTip(t, t.at[rest[0].prev]) {
      OnTopOfTip(t, rest, genesis);
    } else {
      ForkAddsOneChain(t, rest, genesis);
    }
  }

  /** A linear batch of new headers that starts below a tip adds one chain and changes no other. */
  lemma ForkAddsOneChain(t: Tree, batch: seq<Header>, genesis: Bytes)
    requires Valid(t) && HasGenesis(t, genesis) && Linear(batch)
    requires ConnectBatch(t, batch, genesis).ending == AllConnected
    requires batch != [] && batch[0].hash !in t.at && batch[0].prev in t.at && !IsTip(t, t.at[batch[0].prev])
    requires forall i, j :: 0 <= i < j < |batch| ==> batch[i].hash != batch[j].hash
    requires forall i :: 0 <= i < |batch| ==> batch[i].hash !in t.at
    ensures var after := ConnectBatch(t, batch, genesis).tree;
      && |after.chains| == |t.chains| + 1
      && forall i :: 0 <= i < |t.chains| ==> after.chains[i] == t.chains[i]
  {
    hide Valid, Attach;
    var h, rest := batch[0], batch[1..];
    FirstConnects(t, batch, genesis);
    AttachCount(t, h);
    ForkKeepsChains(t, h);
    ConnectAddsOne(t, h);
    var next := Connect(t, h).value;
    if rest != [] {
      assert rest[0].prev == h.hash;
      OtherChainsStay(next, rest, genesis, |t.chains|);
    }
  }

  lemma FirstConnects(t: Tree, batch: seq<Header>, genesis: Bytes)
    requires Valid(t) && HasGenesis(t, genesis) && batch != [] && batch[0].hash !in t.at
    requires ConnectBatch(t, batch, genesis).ending == AllConnected
    ensures batch[0].prev in t.at && Connect(t, batch[0]).Some?
    ensures Valid(Connect(t, batch[0]).value)
         && ConnectBatch(Connect(t, batch[0]).value, batch[1..], genesis).ending == AllConnected
  {
    hide Valid, Attach;
    ConnectKeepsValid(t, batch[0]) by { PrevIsKnown(t, batch, genesis); }
  }

  lemma PrevIsKnown(t: Tree, batch: seq<Header>, genesis: Bytes)
    requires Valid(t) && HasGenesis(t, genesis) && batch != [] && batch[0].hash !in t.at
    requires ConnectBatch(t, batch, genesis).ending == AllConnected
    ensures batch[0].prev in t.at
  {
    hide Valid, Attach;
  }

  lemma ForkKeepsChains(t: Tree, h: Header)
    requires Valid(t) && h.hash !in t.at && h.prev in t.at && !IsTip(t, t.at[h.prev])
    ensures var after := Attach(t, h, t.at[h.prev]);
      && |after.chains| == |t.chains| + 1 && after.at[h.hash].chain == |t.chains|
      && forall i :: 0 <= i < |t.chains| ==> after.chains[i] == t.chains[i]
  {
  }

  /** A linear batch on top of a tip leaves all other chains alone. */
  lemma {:induction false} OtherChainsStay(t: Tree, batch: seq<Header>, genesis: Bytes, i: nat)
    requires Valid(t) && HasGenesis(t, genesis) && Linear(batch)
    requires ConnectBatch(t, batch, genesis).ending == AllConnected
    requires batch != [] && batch[0].hash !in t.at && batch[0].prev in t.at
    requires IsTip(t, t.at[batch[0].prev]) && t.at[batch[0].prev].chain == i
    requires forall i, j :: 0 <= i < j < |batch| ==> batch[i].hash != batch[j].hash
    requires forall i :: 0 <= i < |batch| ==> batch[i].hash !in t.at
    ensures var after := ConnectBatch(t, batch, genesis).tree;
      |after.chains| == |t.chains| && forall k :: 0 <= k < |t.chains| && k != i ==> after.chains[k] == t.chains[k]
    decreases |batch|
  {
    hide Valid;
    AttachCount(t, batch[0]);
    ConnectKeepsValid(t, batch[0]);
    ConnectAddsOne(t, batch[0]);
    var next := Connect(t, batch[0]).value;
    if |batch| > 1 {
      assert batch[1].prev == batch[0].hash;
      OtherChainsStay(next, batch[1..], genesis, i);
    } else {
      assert batch[1..] == [];
    }
  }

  /** What `OnTopOfTip` and `ForkAddsOneChain` say of the chains, for the best one. */
  lemma {:induction false} LinearBest(t: Tree, batch: seq<Header>, genesis: Bytes)
    requires Valid(t) && HasGenesis(t, genesis) && Linear(batch)
    requires ConnectBatch(t, batch, genesis).ending == AllConnected
    requires batch != [] && batch[0].hash !in t.at && batch[0].prev in t.at
    requires forall i, j :: 0 <= i < j < |batch| ==> batch[i].hash != batch[j].hash
    requires forall i :: 0 <= i < |batch| ==> batch[i].hash !in t.at
    ensures var after, parent := ConnectBatch(t, batch, genesis).tree, t.at[batch[0].prev];
      if parent.height + |batch| > Tip(t)
      then Tip(after) == parent.height + |batch|
        && after.best == if IsTip(t, parent) then parent.chain else |t.chains|
      else BestChain(after) == BestChain(t) && after.best == t.best
    decreases |batch|
  {
    hide Valid, Attach, BestChain, Tip;
    var h, rest := batch[0], batch[1..];
    FirstConnects(t, batch, genesis);
    AttachCount(t, h);
    ConnectAddsOne(t, h);
    NewTipOf(t, h);
    NewBest(t, h);
    var next := Connect(t, h).value;
    if rest != [] {
      assert rest[0].prev == h.hash;
      LinearBest(next, rest, genesis);
    } else {
      assert ConnectBatch(next, rest, genesis).tree == next;
    }
    SameTip(t, ConnectBatch(t, batch, genesis).tree);
  }

  lemma SameTip(t: Tree, after: Tree)
    requires Valid(t) && Valid(after)
    ensures BestChain(t) == BestChain(after) ==> Tip(t) == Tip(after)
  {
    TipOfBest(t);
    TipOfBest(after);
  }

  /** The first new header of the batch, on its known parent, starts a run that ends above our tip. */
  ghost predicate Overtakes(t: Tree, batch: seq<Header>)
    requires Valid(t) && Known(t, batch) < |batch|
  {
    var n := Known(t, batch);
    batch[n].prev in t.at && t.at[batch[n].prev].height + (|batch| - n) > Tip(t)
  }

  /** A linear batch changes the best chain exactly if it overtakes. */
  lemma LinearBatch(t: Tree, batch: seq<Header>, genesis: Bytes)
    requires Valid(t) && HasGenesis(t, genesis) && Linear(batch) && Fresh(t, batch)
    requires Known(t, batch) < |batch| && ConnectBatch(t, batch, genesis).ending == AllConnected
    ensures batch[Known(t, batch)].prev in t.at
    ensures var after, parent := ConnectBatch(t, batch, genesis).tree, t.at[batch[Known(t, batch)].prev];
      if Overtakes(t, batch)
      then |BestChain(after)| > |BestChain(t)|
        && after.best == if IsTip(t, parent) then parent.chain else |t.chains|
      else BestChain(after) == BestChain(t) && after.best == t.best
  {
    hide Valid, Attach, Known, BestChain, Tip;
    var n := Known(t, batch);
    var rest := batch[n..];
    SkipKnown(t, batch, genesis, n);
    PrevIsKnown(t, rest, genesis);
    LinearBest(t, rest, genesis);
    TipOfBest(t);
    TipOfBest(ConnectBatch(t, batch, genesis).tree);
  }

  /**
   * What is said of a linear batch that overtakes. One on top of the best tip is a plain
   * new tip, and rightly so. So is one on top of the tip of a side chain, but that is a
   * reorganisation which is missed. One that forks off below every tip is reported as the
   * reorganisation it is, with the height of the highest common header.
   */
  lemma OvertakingForkReportedExactly(t: Tree, batch: seq<Header>, genesis: Bytes)
    requires Valid(t) && HasGenesis(t, genesis) && Linear(batch) && Fresh(t, batch)
    requires Known(t, batch) < |batch| && ConnectBatch(t, batch, genesis).ending == AllConnected
    requires Overtakes(t, batch)
    ensures var (after, tip) := ReorgSafe(t, batch, genesis);
      var parent, before, now := batch[Known(t, batch)].prev, BestChain(t), BestChain(after);
      && parent in t.at && |now| > |before|
      && (if t.at[parent] == BestTip(t) then tip.NoReorg? && before <= now
          else if IsTip(t, t.at[parent]) then tip.NoReorg? && !(before <= now)
          else tip.Reorg? && !(before <= now) && tip.common == CommonLength(now, before) - 1
               && IsTip(after, BestTip(t)))
  {
    hide FullChain, ConnectBatch, Known, Overtakes, Grows;
    ChainsRiseExactly(t, batch, genesis);
    LinearBatch(t, batch, genesis);
    BestTipPlace(t);
    OldBestChain(t, batch, genesis);
    var after, parent := ConnectBatch(t, batch, genesis).tree, t.at[batch[Known(t, batch)].prev];
    BestTipPlace(after);
    if parent != BestTip(t) {
      OldChainStays(t, batch, genesis);
      var was := FullChain(after.chains, t.best);
      assert was[..|was|] == was == BestChain(t);
      TipIsLast(after, t.best, after.best);
      if !IsTip(t, parent) {
        ForkIsReported(t, batch, genesis);
        ReorgIsExact(t, batch, genesis);
      }
    }
  }

  /** A batch that does not stand on the best tip leaves the old best chain as it is. */
  lemma OldChainStays(t: Tree, batch: seq<Header>, genesis: Bytes)
    requires Valid(t) && HasGenesis(t, genesis) && Linear(batch) && Fresh(t, batch)
    requires Known(t, batch) < |batch| && ConnectBatch(t, batch, genesis).ending == AllConnected
    requires batch[Known(t, batch)].prev in t.at && t.at[batch[Known(t, batch)].prev] != BestTip(t)
    ensures var after := ConnectBatch(t, batch, genesis).tree;
      t.best < |after.chains| && after.chains[t.best] == t.chains[t.best]
  {
    hide Valid, Attach, Known;
    ChainsRiseExactly(t, batch, genesis);
    var n := Known(t, batch);
    var parent := t.at[batch[n].prev];
    OldTip(t);
    if IsTip(t, parent) {
      SkipKnown(t, batch, genesis, n);
      OtherChainsStay(t, batch[n..], genesis, parent.chain);
    }
  }

  /** A linear batch that overtakes from below all tips is reported as a reorganisation. */
  lemma ForkIsReported(t: Tree, batch: seq<Header>, genesis: Bytes)
    requires Valid(t) && HasGenesis(t, genesis) && Linear(batch) && Fresh(t, batch)
    requires Known(t, batch) < |batch| && ConnectBatch(t, batch, genesis).ending == AllConnected
    requires |BestChain(ConnectBatch(t, batch, genesis).tree)| > |BestChain(t)|
    requires batch[Known(t, batch)].prev in t.at ==> !IsTip(t, t.at[batch[Known(t, batch)].prev])
    ensures ReorgSafe(t, batch, genesis).1.Reorg? && IsTip(ReorgSafe(t, batch, genesis).0, BestTip(t))
  {
    hide FullChain, ConnectBatch, Known;
    ChainsRiseExactly(t, batch, genesis);
    BestTipPlace(t);
    var after := ConnectBatch(t, batch, genesis).tree;
    BestTipPlace(after);
    BatchKeepsHeaders(t, batch, genesis, BestTip(t));
    assert after.chains[t.best] == t.chains[t.best];
    OldBestChain(t, batch, genesis);
    var oldTip := BestTip(t);
    CommonPart(after, oldTip);
    var common := CommonHeight(after, oldTip);
    if common >= oldTip.height {
      var was := FullChain(after.chains, t.best);
      assert BestChain(after)[oldTip.height] == was[..common + 1][oldTip.height];
      TipIsLast(after, t.best, after.best);
      assert false;
    }
  }

  /** A longer whole chain does not run through the tip of another. */
  lemma TipIsLast(t: Tree, i: nat, j: nat)
    requires Valid(t) && i < |t.chains| && j < |t.chains|
    requires |FullChain(t.chains, i)| < |FullChain(t.chains, j)| && FullChain(t.chains, i) != []
    ensures FullChain(t.chains, j)[|FullChain(t.chains, i)| - 1] != Last(FullChain(t.chains, i))
  {
    ChainIsGood(t.chains, i);
    OwnPart(t.chains, i, t.chains[i].Top());
    NoChainThroughTip(t, j, i);
  }

  lemma {:induction false} NoChainThroughTip(t: Tree, j: nat, i: nat)
    requires Valid(t) && i < |t.chains| && j < |t.chains|
    requires 0 <= t.chains[i].Top() < t.chains[j].Top() && IsLoc(t.chains, Loc(i, t.chains[i].Top()))
    ensures FullChain(t.chains, j)[t.chains[i].Top()] != HeaderAt(t.chains, Loc(i, t.chains[i].Top()))
    decreases j
  {
    var k := t.chains[i].Top();
    ChainIsGood(t.chains, j);
    if k >= t.chains[j].base {
      OwnPart(t.chains, j, k);
      assert IsLoc(t.chains, Loc(j, k));
    } else {
      NoChainThroughTip(t, t.chains[j].parent, i);
    }
  }

  /**
   * A linear batch that does not overtake changes no best chain. It raises, although all its
   * headers were connected, exactly if it forks off below every tip.
   */
  lemma SideForkRaises(t: Tree, batch: seq<Header>, genesis: Bytes)
    requires Valid(t) && HasGenesis(t, genesis) && Linear(batch) && Fresh(t, batch)
    requires Known(t, batch) < |batch| && ConnectBatch(t, batch, genesis).ending == AllConnected
    requires !Overtakes(t, batch)
    ensures var (after, tip) := ReorgSafe(t, batch, genesis);
      var parent := batch[Known(t, batch)].prev;
      && parent in t.at && BestChain(after) == BestChain(t)
      && (if IsTip(t, t.at[parent]) then tip.NoReorg? else tip.Raised?)
  {
    hide FullChain, ConnectBatch, Known, Overtakes, BestChain;
    ChainsRiseExactly(t, batch, genesis);
    LinearBatch(t, batch, genesis);
    SameTip(t, ConnectBatch(t, batch, genesis).tree);
  }

  /**
   * Exactly when the report on the linear answer of a peer is right: if it brings nothing
   * new, if it stands on the best tip, and otherwise if it either overtakes from below all
   * tips or stands on the tip of a side chain without overtaking.
   */
  lemma ReportIsRightExactly(t: Tree, batch: seq<Header>, genesis: Bytes)
    requires Valid(t) && HasGenesis(t, genesis) && batch != [] && Linear(batch) && Fresh(t, batch)
    requires ConnectBatch(t, batch, genesis).ending == AllConnected
    ensures Known(t, batch) < |batch| ==> batch[Known(t, batch)].prev in t.at
    ensures var (after, tip) := ReorgSafe(t, batch, genesis);
      var n := Known(t, batch);
      IsRight(BestChain(t), BestChain(after), tip) <==>
        || n == |batch|
        || t.at[batch[n].prev] == BestTip(t)
        || (IsTip(t, t.at[batch[n].prev]) <==> !Overtakes(t, batch))
  {
    hide FullChain, ConnectBatch, Known, Overtakes, BestChain;
    var n := Known(t, batch);
    if n == |batch| {
      SkipKnown(t, batch, genesis, n);
      NothingToConnect(t, batch[n..], genesis);
    } else {
      ChainsRiseExactly(t, batch, genesis);
      if Overtakes(t, batch) {
        OvertakingForkReportedExactly(t, batch, genesis);
      } else {
        SideForkRaises(t, batch, genesis);
        BestTipOvertakes(t, batch);
      }
    }
  }

  lemma BestTipOvertakes(t: Tree, batch: seq<Header>)
    requires Valid(t) && Known(t, batch) < |batch| && batch[Known(t, batch)].prev in t.at
    ensures t.at[batch[Known(t, batch)].prev] == BestTip(t) ==> Overtakes(t, batch)
  {
    hide Known;
  }

  lemma NothingToConnect(t: Tree, batch: seq<Header>, genesis: Bytes)
    requires Valid(t) && batch == []
    ensures ConnectBatch(t, batch, genesis).tree == t
  {
  }

  // ----- the reports that mislead -----

  function Named(id: byte, prev: byte): Header {
    Header([id], [prev], [])
  }

  /** Genesis 0 with the blocks 1 and 2 on it. */
  function TwoBlocks(): Tree {
    Tree([Chain(0, 0, [Named(0, 255), Named(1, 0), Named(2, 1)])],
         map[[0] := Loc(0, 0), [1] := Loc(0, 1), [2] := Loc(0, 2)], 0)
  }

  lemma AttachStep(t: Tree, h: Header, parent: Loc, after: Tree)
    requires Valid(t) && h.hash !in t.at && h.prev in t.at && t.at[h.prev] == parent
    requires after == Attach(t, h, parent)
    ensures Connect(t, h) == Some(after) && Valid(after)
  {
    ConnectKeepsValid(t, h);
  }

  /** Two headers connected in turn. */
  lemma TwoSteps(t: Tree, a: Header, b: Header, mid: Tree, after: Tree, genesis: Bytes)
    requires Valid(t) && Connect(t, a) == Some(mid) && Valid(mid) && Connect(mid, b) == Some(after) && Valid(after)
    ensures ConnectBatch(t, [a, b], genesis) == Connected(after, AllConnected, 2)
  {
    hide Valid, Connect;
    assert [a, b][1..] == [b] && [b][1..] == [];
    assert ConnectBatch(after, [], genesis) == Connected(after, AllConnected, 0);
    assert ConnectBatch(mid, [b], genesis) == Connected(after, AllConnected, 1);
  }

  lemma TwoBlocksValid()
    ensures Valid(TwoBlocks()) && HasGenesis(TwoBlocks(), [0])
    ensures HashList(BestChain(TwoBlocks())) == [[0], [1], [2]]
  {
    hide Valid;
    var root := Rooted(Named(0, 255));
    RootedIsValid(Named(0, 255));
    var one := Tree([Chain(0, 0, [Named(0, 255), Named(1, 0)])], map[[0] := Loc(0, 0), [1] := Loc(0, 1)], 0);
    AttachStep(root, Named(1, 0), Loc(0, 0), one) by {
      assert root.chains[0].hdrs + [Named(1, 0)] == one.chains[0].hdrs;
      assert root.chains[0 := one.chains[0]] == one.chains;
    }
    assert one.chains[0].hdrs + [Named(2, 1)] == [Named(0, 255), Named(1, 0), Named(2, 1)];
    AttachStep(one, Named(2, 1), Loc(0, 1), TwoBlocks());
    FirstChain(TwoBlocks());
  }

  lemma FirstChain(t: Tree)
    requires Valid(t)
    ensures FullChain(t.chains, 0) == t.chains[0].hdrs
  {
  }

  lemma SideChain(t: Tree, i: nat)
    requires Valid(t) && 0 < i < |t.chains| && t.chains[i].parent == 0
    ensures t.chains[i].base <= |t.chains[0].hdrs|
    ensures FullChain(t.chains, i) == t.chains[0].hdrs[..t.chains[i].base] + t.chains[i].hdrs
  {
    ChainIsGood(t.chains, i);
    ChainIsGood(t.chains, 0);
  }

  /** And the side chain of block 3 on the genesis block. */
  function TwoChains(): Tree {
    Tree(TwoBlocks().chains + [Chain(0, 1, [Named(3, 0)])], TwoBlocks().at[[3] := Loc(1, 1)], 0)
  }

  lemma TwoChainsValid()
    ensures Valid(TwoBlocks()) && Connect(TwoBlocks(), Named(3, 0)) == Some(TwoChains())
    ensures Valid(TwoChains()) && HasGenesis(TwoChains(), [0])
    ensures BestChain(TwoChains()) == TwoBlocks().chains[0].hdrs
  {
    hide Valid;
    TwoBlocksValid();
    AttachStep(TwoBlocks(), Named(3, 0), Loc(0, 0), TwoChains());
    FirstChain(TwoChains());
  }

  /** One new block beside the best tip's: the header is connected, the best chain stays, and the call raises. */
  lemma SideForkIsRaised()
    ensures var t, batch := TwoBlocks(), [Named(3, 0)];
      Valid(t) && HasGenesis(t, [0]) &&
      var (after, tip) := ReorgSafe(t, batch, [0]);
      && tip == Raised && after == TwoChains()
      && HashList(BestChain(after)) == HashList(BestChain(t)) == [[0], [1], [2]]
  {
    hide Valid, Connect;
    TwoBlocksValid();
    TwoChainsValid();
    OneStep(TwoBlocks(), Named(3, 0), TwoChains(), [0]);
    FirstChain(TwoBlocks());
  }

  lemma OneStep(t: Tree, a: Header, after: Tree, genesis: Bytes)
    requires Valid(t) && Connect(t, a) == Some(after) && Valid(after)
    ensures ConnectBatch(t, [a], genesis) == Connected(after, AllConnected, 1)
  {
    hide Valid, Connect;
    assert [a][1..] == [];
    assert ConnectBatch(after, [], genesis) == Connected(after, AllConnected, 0);
  }

  /**
   * A side chain that was known before and now overtakes is a reorganisation, two blocks
   * deep here, but is reported as a plain new tip.
   */
  lemma OvertakingSideChainIsMissed()
    ensures var t, batch := TwoChains(), [Named(4, 3), Named(5, 4)];
      Valid(t) && HasGenesis(t, [0]) &&
      var (after, tip) := ReorgSafe(t, batch, [0]);
      && tip == NoReorg(Named(4, 3), Named(5, 4))
      && HashList(BestChain(t)) == [[0], [1], [2]] && HashList(BestChain(after)) == [[0], [3], [4], [5]]
  {
    hide Valid;
    TwoChainsValid();
    var t, first := TwoChains(), TwoBlocks().chains[0];
    var four := Tree([first, Chain(0, 1, [Named(3, 0), Named(4, 3)])], t.at[[4] := Loc(1, 2)], 0);
    AttachStep(t, Named(4, 3), Loc(1, 1), four) by {
      assert t.chains[1].hdrs + [Named(4, 3)] == four.chains[1].hdrs;
      assert t.chains[1 := four.chains[1]] == four.chains;
    }
    var five := Tree([first, Chain(0, 1, [Named(3, 0), Named(4, 3), Named(5, 4)])], four.at[[5] := Loc(1, 3)], 1);
    AttachStep(four, Named(5, 4), Loc(1, 2), five) by {
      assert four.chains[1].hdrs + [Named(5, 4)] == five.chains[1].hdrs;
      assert four.chains[1 := five.chains[1]] == five.chains;
    }
    TwoSteps(t, Named(4, 3), Named(5, 4), four, five, [0]);
    SideChain(five, 1);
    assert first.hdrs[..1] + five.chains[1].hdrs == [Named(0, 255), Named(3, 0), Named(4, 3), Named(5, 4)];
  }

  /**
   * A batch that extends the tip and also starts a fork is reported as a reorganisation
   * from the genesis block, although the best chain only grew.
   */
  lemma ExtendedTipIsMistaken()
    ensures var t, batch := TwoBlocks(), [Named(3, 0), Named(4, 2)];
      Valid(t) && HasGenesis(t, [0]) &&
      var (after, tip) := ReorgSafe(t, batch, [0]);
      && tip == Reorg(Named(1, 0), Named(4, 2), [[2], [1]], [[4], [2], [1]], 0)
      && HashList(BestChain(t)) == [[0], [1], [2]] && HashList(BestChain(after)) == [[0], [1], [2], [4]]
  {
    hide Valid;
    TwoBlocksValid();
    TwoChainsValid();
    var t, forked := TwoBlocks(), TwoChains();
    var hdrs := [Named(0, 255), Named(1, 0), Named(2, 1), Named(4, 2)];
    var after := Tree([Chain(0, 0, hdrs), Chain(0, 1, [Named(3, 0)])], forked.at[[4] := Loc(0, 3)], 0);
    AttachStep(forked, Named(4, 2), Loc(0, 2), after) by {
      assert forked.chains[0].hdrs + [Named(4, 2)] == hdrs;
      assert forked.chains[0 := after.chains[0]] == after.chains;
    }
    TwoSteps(t, Named(3, 0), Named(4, 2), forked, after, [0]);
    FirstChain(after);
    assert hdrs[1..3] == [Named(1, 0), Named(2, 1)] && hdrs[1..4] == [Named(1, 0), Named(2, 1), Named(4, 2)];
    assert Reversed(HashList(hdrs[1..3])) == [[2], [1]];
    assert Reversed(HashList(hdrs[1..4])) == [[4], [2], [1]];
  }
}
