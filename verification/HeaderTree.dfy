/**
 * The block tree a headers store keeps. Chains are listed in the order they were started;
 * each but the first forks off an earlier one below that one's tip. All headers count as
 * equal work, so the longest chain is the highest, and a tie keeps the incumbent.
 */
module HeaderTree {
  import opened ByteStrings

  datatype Header = Header(hash: Bytes, prev: Bytes, raw: Bytes)

  datatype Loc = Loc(chain: nat, height: nat)

  /** `base` is the height of the chain's first own header, whose parent is in chain `parent`. */
  datatype Chain = Chain(parent: nat, base: nat, hdrs: seq<Header>) {
    function Top(): int {
      base + |hdrs| - 1
    }
  }

  datatype Tree = Tree(chains: seq<Chain>, at: map<Bytes, Loc>, best: nat)

  /** A tree that holds the genesis header alone. */
  function Rooted(genesis: Header): Tree {
    Tree([Chain(0, 0, [genesis])], map[genesis.hash := Loc(0, 0)], 0)
  }

  ghost predicate IsLoc(chains: seq<Chain>, loc: Loc) {
    loc.chain < |chains| && chains[loc.chain].base <= loc.height <= chains[loc.chain].Top()
  }

  function HeaderAt(chains: seq<Chain>, loc: Loc): Header
    requires IsLoc(chains, loc)
  {
    chains[loc.chain].hdrs[loc.height - chains[loc.chain].base]
  }

  /** Chain `i` is linked, and forks off an earlier chain below its tip. */
  ghost predicate GoodChain(chains: seq<Chain>, i: nat)
    requires i < |chains|
  {
    var c := chains[i];
    && c.hdrs != []
    && (forall j :: 0 < j < |c.hdrs| ==> c.hdrs[j].prev == c.hdrs[j - 1].hash)
    && if i == 0 then c.base == c.parent == 0
       else
         && c.parent < i && 0 < c.base <= chains[c.parent].Top()
         && IsLoc(chains, Loc(c.parent, c.base - 1))
         && c.hdrs[0].prev == HeaderAt(chains, Loc(c.parent, c.base - 1)).hash
  }

  ghost predicate GoodChains(chains: seq<Chain>) {
    forall i :: 0 <= i < |chains| ==> GoodChain(chains, i)
  }

  /** `at` is the index of the headers by their hash. */
  ghost predicate Indexed(t: Tree) {
    && (forall h :: h in t.at ==> IsLoc(t.chains, t.at[h]) && HeaderAt(t.chains, t.at[h]).hash == h)
    && (forall loc :: IsLoc(t.chains, loc) ==>
          HeaderAt(t.chains, loc).hash in t.at && t.at[HeaderAt(t.chains, loc).hash] == loc)
  }

  ghost predicate Valid(t: Tree) {
    && t.chains != [] && t.best < |t.chains|
    && GoodChains(t.chains)
    && Indexed(t)
    && (forall i :: 0 <= i < |t.chains| ==> t.chains[i].Top() <= t.chains[t.best].Top())
  }

  predicate IsTip(t: Tree, loc: Loc) {
    loc.chain < |t.chains| && loc.height == t.chains[loc.chain].Top()
  }

  // ----- connecting a header -----

  /** The tree with `h` on top of the header at `parent`: its chain grows, or a new chain starts. */
  function Attach(t: Tree, h: Header, parent: Loc): Tree
    requires parent.chain < |t.chains| && t.best < |t.chains|
  {
    var c := t.chains[parent.chain];
    var i := if parent.height == c.Top() then parent.chain else |t.chains|;
    var chains :=
      if parent.height == c.Top() then t.chains[i := c.(hdrs := c.hdrs + [h])]
      else t.chains + [Chain(parent.chain, parent.height + 1, [h])];
    Tree(chains, t.at[h.hash := Loc(i, parent.height + 1)],
         if chains[i].Top() > chains[t.best].Top() then i else t.best)
  }

  /** `None` is the MissingHeader exception. A known header is left alone. */
  function Connect(t: Tree, h: Header): Option<Tree>
    requires Valid(t)
  {
    if h.hash in t.at then Some(t)
    else if h.prev !in t.at then None
    else Some(Attach(t, h, t.at[h.prev]))
  }

  lemma RootedIsValid(genesis: Header)
    ensures Valid(Rooted(genesis))
  {
    var t := Rooted(genesis);
    assert GoodChain(t.chains, 0);
    forall loc | IsLoc(t.chains, loc) ensures loc == Loc(0, 0) {
    }
  }

  /** No chain is changed but the one that grows, and that one only at its end. */
  lemma AttachKeepsChains(t: Tree, h: Header, parent: Loc)
    requires parent.chain < |t.chains| && t.best < |t.chains|
    ensures var after := Attach(t, h, parent);
      && |t.chains| <= |after.chains| <= |t.chains| + 1
      && (forall i :: 0 <= i < |t.chains| ==>
            && after.chains[i].parent == t.chains[i].parent && after.chains[i].base == t.chains[i].base
            && t.chains[i].hdrs <= after.chains[i].hdrs)
      && (forall loc :: IsLoc(t.chains, loc) ==>
            IsLoc(after.chains, loc) && HeaderAt(after.chains, loc) == HeaderAt(t.chains, loc))
  {
  }

  /** A chain stays good when the chains before it keep their headers. */
  lemma ChainStaysGood(t: seq<Chain>, after: seq<Chain>, i: nat)
    requires i < |t| <= |after| && GoodChain(t, i) && after[i] == t[i]
    requires i > 0 ==> t[i].parent < i && after[t[i].parent].base == t[t[i].parent].base
                       && t[t[i].parent].hdrs <= after[t[i].parent].hdrs
    ensures GoodChain(after, i)
  {
  }

  lemma GrownChainIsGood(t: seq<Chain>, after: seq<Chain>, i: nat, h: Header)
    requires i < |t| == |after| && GoodChain(t, i) && after == t[i := t[i].(hdrs := t[i].hdrs + [h])]
    requires h.prev == Last(t[i].hdrs).hash
    ensures GoodChain(after, i)
  {
  }

  lemma NewChainIsGood(t: seq<Chain>, h: Header, parent: Loc)
    requires IsLoc(t, parent) && parent.height < t[parent.chain].Top() && h.prev == HeaderAt(t, parent).hash
    ensures GoodChain(t + [Chain(parent.chain, parent.height + 1, [h])], |t|)
  {
  }

  lemma AttachedChains(t: Tree, h: Header)
    requires Valid(t) && h.hash !in t.at && h.prev in t.at
    ensures GoodChains(Attach(t, h, t.at[h.prev]).chains)
  {
    var parent := t.at[h.prev];
    var after := Attach(t, h, parent);
    forall i | 0 <= i < |after.chains| ensures GoodChain(after.chains, i) {
      hide GoodChain;
      if i == |t.chains| {
        NewChainIsGood(t.chains, h, parent);
      } else if i == after.at[h.hash].chain {
        GrownChainIsGood(t.chains, after.chains, i, h);
      } else {
        ParentComesFirst(t.chains, i);
        ChainStaysGood(t.chains, after.chains, i);
      }
    }
  }

  lemma ParentComesFirst(chains: seq<Chain>, i: nat)
    requires GoodChains(chains) && i < |chains|
    ensures i > 0 ==> chains[i].parent < i
  {
    assert GoodChain(chains, i);
  }

  lemma AttachedIndex(t: Tree, h: Header)
    requires Valid(t) && h.hash !in t.at && h.prev in t.at
    ensures Indexed(Attach(t, h, t.at[h.prev]))
  {
    var parent := t.at[h.prev];
    var after := Attach(t, h, parent);
    AttachKeepsChains(t, h, parent);
    var place := after.at[h.hash];
    assert IsLoc(after.chains, place) && HeaderAt(after.chains, place) == h;
    forall loc | IsLoc(after.chains, loc) && loc != place ensures IsLoc(t.chains, loc) {
    }
  }

  /** Connecting keeps the store a tree, whatever header comes. */
  lemma ConnectKeepsValid(t: Tree, h: Header)
    requires Valid(t) && Connect(t, h).Some?
    ensures Valid(Connect(t, h).value)
  {
    if h.hash !in t.at {
      AttachedChains(t, h);
      AttachedIndex(t, h);
    }
  }

  lemma AttachedHeader(t: Tree, h: Header)
    requires Valid(t) && h.hash !in t.at && h.prev in t.at
    ensures var after := Attach(t, h, t.at[h.prev]);
      && IsLoc(after.chains, after.at[h.hash]) && HeaderAt(after.chains, after.at[h.hash]) == h
      && after.at[h.hash].height == t.at[h.prev].height + 1
  {
  }

  // ----- whole chains -----

  /** Chain `i` from genesis to its tip. */
  function FullChain(chains: seq<Chain>, i: nat): (s: seq<Header>)
    requires GoodChains(chains) && i < |chains|
    ensures |s| == chains[i].base + |chains[i].hdrs| > 0
    decreases i
  {
    var c := chains[i];
    assert GoodChain(chains, i);
    if i == 0 then c.hdrs else FullChain(chains, c.parent)[..c.base] + c.hdrs
  }

  /** The header at height `k` of a whole chain stands at height `k` of the tree. */
  lemma {:induction false} ChainLocated(chains: seq<Chain>, i: nat, k: nat) returns (loc: Loc)
    requires GoodChains(chains) && i < |chains| && k < |FullChain(chains, i)|
    ensures IsLoc(chains, loc) && loc.height == k && HeaderAt(chains, loc) == FullChain(chains, i)[k]
    ensures loc.chain <= i
    decreases i
  {
    hide GoodChains;
    assert GoodChain(chains, i) by { ChainIsGood(chains, i); }
    if k >= chains[i].base {
      loc := Loc(i, k);
    } else {
      loc := ChainLocated(chains, chains[i].parent, k);
    }
  }

  lemma ChainIsGood(chains: seq<Chain>, i: nat)
    requires GoodChains(chains) && i < |chains|
    ensures GoodChain(chains, i)
  {
  }

  lemma {:induction false} ChainLinked(chains: seq<Chain>, i: nat, k: nat)
    requires GoodChains(chains) && i < |chains| && 0 < k < |FullChain(chains, i)|
    ensures FullChain(chains, i)[k].prev == FullChain(chains, i)[k - 1].hash
    decreases i
  {
    hide GoodChains;
    ChainIsGood(chains, i);
    var c := chains[i];
    if k < c.base {
      ChainLinked(chains, c.parent, k);
    } else if k == c.base {
      OwnPart(chains, c.parent, c.base - 1);
    }
  }

  /** Above its base a whole chain is the chain's own headers. */
  lemma OwnPart(chains: seq<Chain>, i: nat, k: nat)
    requires GoodChains(chains) && i < |chains| && IsLoc(chains, Loc(i, k))
    ensures FullChain(chains, i)[k] == HeaderAt(chains, Loc(i, k))
  {
  }

  ghost predicate Linked(s: seq<Header>) {
    forall k :: 0 < k < |s| ==> s[k].prev == s[k - 1].hash
  }

  /** A header's hash decides its whole ancestry: a linked path that meets a chain lies on it. */
  lemma {:induction false} AncestryIsUnique(t: Tree, s: seq<Header>, i: nat, k: nat)
    requires Valid(t) && i < |t.chains| && Linked(s)
    requires k < |s| && k < |FullChain(t.chains, i)| && s[k] == FullChain(t.chains, i)[k]
    requires forall j :: 0 <= j < k ==> s[j].hash in t.at ==> HeaderAt(t.chains, t.at[s[j].hash]) == s[j]
    ensures s[..k + 1] == FullChain(t.chains, i)[..k + 1]
    decreases k
  {
    hide GoodChains, FullChain;
    if k > 0 {
      ChainLinked(t.chains, i, k);
      var loc := ChainLocated(t.chains, i, k - 1);
      assert t.at[s[k - 1].hash] == loc;
      AncestryIsUnique(t, s, i, k - 1);
    }
  }

  lemma WholeChainLinked(chains: seq<Chain>, i: nat)
    requires GoodChains(chains) && i < |chains|
    ensures Linked(FullChain(chains, i))
  {
    hide GoodChains, FullChain;
    forall k | 0 < k < |FullChain(chains, i)|
      ensures FullChain(chains, i)[k].prev == FullChain(chains, i)[k - 1].hash
    {
      ChainLinked(chains, i, k);
    }
  }

  /** Headers of whole chains are found under their hash, at their height. */
  lemma ChainIndexed(t: Tree, i: nat, k: nat)
    requires Valid(t) && i < |t.chains| && k < |FullChain(t.chains, i)|
    ensures var h := FullChain(t.chains, i)[k];
      h.hash in t.at && t.at[h.hash].height == k && HeaderAt(t.chains, t.at[h.hash]) == h
  {
    hide GoodChains, FullChain;
    var loc := ChainLocated(t.chains, i, k);
  }

  /** Two chains that share the header at one height share all below it. */
  lemma ChainsShareBelow(t: Tree, i: nat, j: nat, k: nat)
    requires Valid(t) && i < |t.chains| && j < |t.chains|
    requires k < |FullChain(t.chains, i)| && k < |FullChain(t.chains, j)|
    requires FullChain(t.chains, i)[k].hash == FullChain(t.chains, j)[k].hash
    ensures FullChain(t.chains, i)[..k + 1] == FullChain(t.chains, j)[..k + 1]
  {
    hide GoodChains, FullChain;
    var s := FullChain(t.chains, i);
    WholeChainLinked(t.chains, i);
    ChainIndexed(t, i, k);
    ChainIndexed(t, j, k);
    forall m | 0 <= m < k ensures s[m].hash in t.at && HeaderAt(t.chains, t.at[s[m].hash]) == s[m] {
      ChainIndexed(t, i, m);
    }
    AncestryIsUnique(t, s, j, k);
  }

  // ----- growth -----

  /** `after` has every chain of `t`, each possibly longer, and possibly more chains. */
  ghost predicate Grows(t: seq<Chain>, after: seq<Chain>) {
    && |t| <= |after|
    && forall i :: 0 <= i < |t| ==>
         && after[i].parent == t[i].parent && after[i].base == t[i].base && t[i].hdrs <= after[i].hdrs
  }

  /** Whole chains grow at their ends only. */
  lemma {:induction false} FullChainGrows(t: seq<Chain>, after: seq<Chain>, i: nat)
    requires GoodChains(t) && GoodChains(after) && Grows(t, after) && i < |t|
    ensures FullChain(t, i) <= FullChain(after, i)
    decreases i
  {
    hide GoodChains;
    ChainIsGood(t, i);
    if i > 0 {
      FullChainGrows(t, after, t[i].parent);
      var p, p' := FullChain(t, t[i].parent), FullChain(after, t[i].parent);
      assert p'[..t[i].base] == p[..t[i].base];
    }
  }

  lemma GrowsTransitively(a: seq<Chain>, b: seq<Chain>, c: seq<Chain>)
    requires Grows(a, b) && Grows(b, c)
    ensures Grows(a, c)
  {
    forall i | 0 <= i < |a| ensures a[i].hdrs <= c[i].hdrs {
      assert b[i].hdrs <= c[i].hdrs;
    }
  }
}
