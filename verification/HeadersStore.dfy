/** The headers store: a tree in memory, a file, and a cursor between them. */
module HeadersStores {
  import opened ByteStrings
  import opened HeaderTree
  import opened Batches
  import opened Persistence
  import opened Reorg
  import Blocks
  import Codec

  /** `read_varint` and then the headers; a message without a readable count raises. */
  function ConnectMessage(sha256: Blocks.Hash, t: Tree, data: Bytes, genesis: Bytes): (r: Connected)
    requires HeaderTree.Valid(t)
    ensures HeaderTree.Valid(r.tree)
  {
    match UnpackVarint(data, 0)
    case None => Connected(t, Truncated, 0)
    case Some(count) => ConnectStream(sha256, t, data, count.next, count.value, genesis)
  }

  /** The message with the headers a peer sends is the batch of those headers. */
  lemma MessageIsBatch(sha256: Blocks.Hash, t: Tree, raws: seq<Bytes>, genesis: Bytes)
    requires HeaderTree.Valid(t) && |raws| <= Codec.MAX_UINT64 && forall i :: 0 <= i < |raws| ==> |raws[i]| == 80
    ensures ConnectMessage(sha256, t, Codec.HeadersPayload(raws), genesis)
         == ConnectBatch(t, HeadersOf(sha256, raws), genesis)
  {
    hide HeaderTree.Valid, UnpackVarint, Codec.ParseHeaders, Codec.HeadersPayload;
    var data := Codec.HeadersPayload(raws);
    Codec.HeadersPayloadRoundTrip(raws, []);
    assert data + [] == data;
    var count := UnpackVarint(data, 0).value;
    StreamIsBatch(sha256, t, data, count.next, count.value, genesis);
  }

  /**
   * A message with one new header connects it exactly if the header its `prev` field names
   * is in the store. The header is then found under the double hash of its bytes, one above
   * that one, and nothing else is added; otherwise nothing changes.
   */
  lemma HeaderConnectsExactly(sha256: Blocks.Hash, t: Tree, w: RawHeader, genesis: Bytes)
    requires HeaderTree.Valid(t) && HasGenesis(t, genesis) && w.Valid()
    requires sha256(sha256(w.Encode())) !in t.at
    ensures var raw, hash := w.Encode(), sha256(sha256(w.Encode()));
      var r := ConnectMessage(sha256, t, Codec.HeadersPayload([raw]), genesis);
      if w.prev in t.at then
        && r.ending == AllConnected && r.tree.at.Keys == t.at.Keys + {hash}
        && r.tree.at[hash].height == t.at[w.prev].height + 1
        && IsLoc(r.tree.chains, r.tree.at[hash])
        && HeaderAt(r.tree.chains, r.tree.at[hash]) == Header(hash, w.prev, raw)
      else r.ending == Missing && r.tree == t
  {
    hide HeaderTree.Valid, ConnectMessage, Codec.HeadersPayload, Attach, HeaderOf, RawHeader.Encode;
    var raw, h := w.Encode(), Header(sha256(sha256(w.Encode())), w.prev, w.Encode());
    HeadersRead(sha256, [w]);
    assert EncodeAll([w]) == [raw];
    assert HeadersOf(sha256, [raw]) == [h];
    MessageIsBatch(sha256, t, [raw], genesis);
    assert [h][1..] == [];
    if w.prev in t.at {
      ConnectKeepsValid(t, h);
      ConnectAddsOne(t, h);
      AttachedHeader(t, h);
      assert ConnectBatch(Connect(t, h).value, [], genesis) == Connected(Connect(t, h).value, AllConnected, 0);
    }
  }

  /** Truncated or not, a message adds headers and takes none away. */
  lemma {:induction false} StreamGrows(sha256: Blocks.Hash, t: Tree, data: Bytes, at: nat, count: nat, genesis: Bytes)
    requires HeaderTree.Valid(t)
    ensures var after := ConnectStream(sha256, t, data, at, count, genesis).tree;
      Grows(t.chains, after.chains) && t.at.Keys <= after.at.Keys
    decreases count
  {
    hide HeaderTree.Valid, HeaderOf, UnpackVarint, Attach, Grows;
    GrowsItself(t.chains);
    if count > 0 && UnpackVarint(data, at + 80).Some? {
      var h, next := HeaderOf(sha256, data[at..at + 80]), UnpackVarint(data, at + 80).value.next;
      if Connect(t, h).Some? {
        var more := Connect(t, h).value;
        ConnectKeepsValid(t, h);
        ConnectAddsOne(t, h);
        StreamGrows(sha256, more, data, next, count - 1, genesis);
        var after := ConnectStream(sha256, more, data, next, count - 1, genesis).tree;
        GrowsTransitively(t.chains, more.chains, after.chains);
      } else if h.prev == genesis {
        StreamGrows(sha256, t, data, next, count - 1, genesis);
      }
    }
  }

  class HeadersStore {
    const sha256: Blocks.Hash
    const genesis: Header
    var headers: Tree
    var cursor: Cursor
    var file: seq<Header>

    ghost predicate Valid()
      reads this
    {
      HeaderTree.Valid(headers) && HasGenesis(headers, genesis.hash) && InStep(genesis, headers, cursor, file)
    }

    /** A store of the headers in a file that can be read. */
    constructor (sha256: Blocks.Hash, genesis: Header, file: seq<Header>)
      requires (RootedIsValid(genesis); Replay(Rooted(genesis), file).Some?)
      ensures Valid() && this.sha256 == sha256 && this.genesis == genesis && this.file == file
      ensures (RootedIsValid(genesis); Some(headers) == Replay(Rooted(genesis), file))
      ensures cursor == FullCursor(headers)
    {
      RootedIsValid(genesis);
      this.sha256, this.genesis, this.file := sha256, genesis, file;
      var r := Replay(Rooted(genesis), file).value;
      headers, cursor := r, FullCursor(r);
      ReplayGrows(Rooted(genesis), file);
      CopyOfItself(r);
    }

    method WriteCachedHeaders()
      requires Valid()
      modifies `cursor, `file
      ensures Valid()
      ensures file == old(file) + Unpersisted(headers, old(cursor), 0) && cursor == FullCursor(headers)
    {
      hide HeaderTree.Valid, Unpersisted, InStep;
      WriteCatchesUp(genesis, headers, cursor, file);
      file := file + Unpersisted(headers, cursor, 0);
      cursor := FullCursor(headers);
    }

    /** `first` is the first header's bytes, when it was connected. */
    method ConnectHeaders(f: Codec.ByteStream) returns (first: Bytes, ending: Ending)
      requires Valid() && f.Valid() && f.at == 0
      modifies this, f
      ensures Valid()
      ensures var r := ConnectMessage(sha256, old(headers), f.data, genesis.hash);
        && headers == r.tree && ending == r.ending
        && first == FirstRaw(f.data, r.done)
        && (r.ending == AllConnected ==>
              cursor == FullCursor(headers) && file == old(file) + Unpersisted(headers, old(cursor), 0))
        && (r.ending != AllConnected ==> cursor == old(cursor) && file == old(file))
    {
      hide HeaderTree.Valid, HasGenesis, UnpackVarint, HeaderOf, Connect, Codec.ReadAt;
      hide InStep, Unpersisted, ConnectStream;
      first := [];
      ghost var was := headers;
      var count := f.ReadVarint();
      if count.None? {
        return first, Truncated;
      }
      ghost var start := f.at;
      ghost var goal := ConnectStream(sha256, was, f.data, start, count.value, genesis.hash);
      ghost var rest := goal;
      for i := 0 to count.value
        invariant f.Valid() && HeaderTree.Valid(headers) && HasGenesis(headers, genesis.hash)
        invariant cursor == old(cursor) && file == old(file) && InStep(genesis, headers, cursor, file)
        invariant rest == ConnectStream(sha256, headers, f.data, f.at, count.value - i, genesis.hash)
        invariant goal == Connected(rest.tree, rest.ending, rest.done + i)
        invariant i == 0 ==> f.at == start
        invariant first == FirstRaw(f.data, i)
      {
        ghost var at := f.at;
        StreamUnfolds(sha256, headers, f.data, at, count.value - i, genesis.hash);
        var raw := f.Read(80);
        Codec.NothingAfterEnd(f.data, at);
        var txCount := f.ReadVarint();
        if txCount.None? {
          return first, Truncated;
        }
        var h := HeaderOf(sha256, raw);
        var next := Connect(headers, h);
        if next.None? && h.prev != genesis.hash {
          return first, Missing;
        }
        if next.Some? {
          ConnectKeepsStep(genesis, headers, h, cursor, file);
          headers := next.value;
          if i == 0 {
            first := raw;
          }
        }
        rest := ConnectStream(sha256, headers, f.data, f.at, count.value - i - 1, genesis.hash);
      }
      StreamEnds(sha256, headers, f.data, f.at, genesis.hash);
      WriteCachedHeaders();
      return first, AllConnected;
    }

    /** `None` is the MissingHeader exception. */
    method GetHeaderForHeight(height: nat) returns (h: Option<Header>)
      requires Valid()
      ensures h == if height < |BestChain(headers)| then Some(BestChain(headers)[height]) else None
    {
      hide FullChain;
      var chain := FullChain(headers.chains, headers.best);
      return if height < |chain| then Some(chain[height]) else None;
    }

    method GetHeaderForHash(hash: Bytes) returns (h: Option<Header>)
      requires Valid()
      ensures h == if hash in headers.at then Some(HeaderAt(headers.chains, headers.at[hash])) else None
    {
      hide FullChain;
      if hash in headers.at {
        h := Some(HeaderAt(headers.chains, headers.at[hash]));
      } else {
        h := None;
      }
    }

    /** Walks from a tip to the best chain's header at height `common`. */
    method ChainHashesCommonParentToTip(tip: Header, ghost loc: Loc, common: nat) returns (hashes: seq<Bytes>)
      requires Valid() && IsLoc(headers.chains, loc) && HeaderAt(headers.chains, loc) == tip
      requires common <= loc.height && common < |BestChain(headers)|
      requires FullChain(headers.chains, loc.chain)[common] == BestChain(headers)[common]
      ensures hashes == Branch(headers, loc, common)
    {
      hide HeaderTree.Valid, FullChain, Reversed, HashList, BestChain, InStep, GoodChains;
      OnItsChain(headers, loc);
      ghost var path := FullChain(headers.chains, loc.chain);
      var commonParent := GetHeaderForHeight(common);
      hashes := [];
      var cur := tip;
      ghost var height: nat := loc.height;
      StillToWalk(path, common, height);
      while commonParent.value.hash != cur.hash
        invariant common <= height <= loc.height && cur == path[height]
        invariant Reversed(HashList(path[common + 1..loc.height + 1]))
               == hashes + Reversed(HashList(path[common + 1..height + 1]))
        decreases height
      {
        ParentIsFound(headers, loc.chain, height);
        StillToWalk(path, common, height);
        var found := GetHeaderForHash(cur.hash);
        hashes := hashes + [found.value.hash];
        found := GetHeaderForHash(found.value.prev);
        cur := found.value;
        height := height - 1;
      }
      DifferentHeights(headers, loc.chain, common, height);
      StillToWalk(path, common, height);
    }

    /** `find_common_parent`, of which only the height is used. `None` is the ValueError. */
    method FindCommonParent(newTip: Header, oldTip: Header) returns (height: Option<nat>)
      requires Valid() && newTip.hash != oldTip.hash
      ensures var reorgChain := ChainWithTip(headers, newTip.hash, |headers.chains|);
        var orphanedChain := ChainWithTip(headers, oldTip.hash, |headers.chains|);
        match (reorgChain, orphanedChain)
        case (Some(i), Some(j)) => height == Some(HighestCommon(headers, i, j))
        case (Some(_), None) => height == Some(0)
        case _ => height == None
    {
      hide FullChain, HighestCommon;
      var reorgChain: Option<nat>, orphanedChain: Option<nat> := None, None;
      for i := 0 to |headers.chains|
        invariant reorgChain == ChainWithTip(headers, newTip.hash, i)
        invariant orphanedChain == ChainWithTip(headers, oldTip.hash, i)
      {
        ChainIsGood(headers.chains, i);
        var tip := Last(headers.chains[i].hdrs);
        if tip.hash == newTip.hash {
          reorgChain := Some(i);
        } else if tip.hash == oldTip.hash {
          orphanedChain := Some(i);
        }
      }
      if reorgChain.Some? && orphanedChain.Some? {
        return Some(HighestCommon(headers, reorgChain.value, orphanedChain.value));
      } else if reorgChain.Some? {
        return Some(0);
      } else {
        return None;
      }
    }

    /** `_reorg_detect`: the common height, when there is a reorganisation. */
    method ReorgDetect(newLoc: Loc, oldLoc: Loc) returns (common: Option<nat>)
      requires Valid() && newLoc == BestTip(headers) && IsLoc(headers.chains, oldLoc)
      ensures common == if newLoc.height > oldLoc.height && CommonHeight(headers, oldLoc) < oldLoc.height
                        then Some(CommonHeight(headers, oldLoc)) else None
    {
      hide FullChain, HighestCommon;
      if newLoc.height <= oldLoc.height {
        return None;
      }
      BestTipPlace(headers);
      TipFound(headers, newLoc, |headers.chains|);
      TipFound(headers, oldLoc, |headers.chains|);
      var found := FindCommonParent(HeaderAt(headers.chains, newLoc), HeaderAt(headers.chains, oldLoc));
      return if found.Some? && found.value < oldLoc.height then found else None;
    }

    /** `connect_headers_reorg_safe`. */
    method ConnectHeadersReorgSafe(f: Codec.ByteStream) returns (result: NewTip)
      requires Valid() && f.Valid() && f.at == 0
      modifies this, f
      ensures Valid()
      ensures ReorgSafeMessage(sha256, old(headers), f.data, genesis.hash, headers, result)
    {
      hide FullChain, ConnectMessage, ConnectBatch, CommonHeight, Branch, HeaderTree.Valid, InStep, FirstRaw, HeaderOf;
      hide Codec.ParseHeadersPayload, UnpackVarint, Unpersisted, HashList, Reversed, HighestCommon;
      ghost var before := headers;
      MessageEnds(sha256, headers, f.data, genesis.hash);
      EmptyBatch(sha256, headers, genesis.hash);
      BestTipPlace(headers);
      var oldLoc := BestTip(headers);
      var oldTip := HeaderAt(headers.chains, oldLoc);
      var countChainsBefore := |headers.chains|;
      var first, ending := ConnectHeaders(f);
      if ending != AllConnected {
        return Raised;
      }
      ghost var raws := RawHeaders(f.data);
      ghost var batch := HeadersOf(sha256, raws);
      BatchKeepsHeaders(before, batch, genesis.hash, oldLoc);
      BatchAddsExactly(before, batch, genesis.hash);
      BestTipPlace(headers);
      var newLoc := BestTip(headers);
      var newTip := HeaderAt(headers.chains, newLoc);
      if countChainsBefore < |headers.chains| {
        var common := ReorgDetect(newLoc, oldLoc);
        if common.None? {
          return Raised;
        }
        CommonPart(headers, oldLoc);
        var start := GetHeaderForHeight(common.value + 1);
        var oldChain := ChainHashesCommonParentToTip(oldTip, oldLoc, common.value);
        var newChain := ChainHashesCommonParentToTip(newTip, newLoc, common.value);
        return Reorg(start.value, newTip, oldChain, newChain, common.value);
      } else {
        if raws != [] {
          FirstIsIn(batch);
          FirstHash(sha256, raws);
        }
        var start := GetHeaderForHash(Blocks.DoubleSha256(sha256, first));
        if start.None? {
          return Raised;
        }
        return NoReorg(start.value, newTip);
      }
    }
  }

  /**
   * Opening a store reads its whole file. `null` is the MissingHeader of a record whose
   * parent does not come before it; files a store wrote have none (`EveryRunIsReplayed`).
   */
  method OpenStore(sha256: Blocks.Hash, genesis: Header, file: seq<Header>) returns (store: HeadersStore?)
    ensures (RootedIsValid(genesis); store == null <==> Replay(Rooted(genesis), file).None?)
    ensures store != null ==>
      && fresh(store) && store.Valid()
      && store.sha256 == sha256 && store.genesis == genesis && store.file == file
      && store.cursor == FullCursor(store.headers)
      && (RootedIsValid(genesis); Some(store.headers) == Replay(Rooted(genesis), file))
  {
    hide HeaderTree.Valid, Replay, InStep;
    RootedIsValid(genesis);
    if Replay(Rooted(genesis), file).None? {
      return null;
    }
    store := new HeadersStore(sha256, genesis, file);
  }

  /** The raw headers of a message; none if it is too short. */
  function RawHeaders(data: Bytes): seq<Bytes> {
    if Codec.ParseHeadersPayload(data).Parsed? then Codec.ParseHeadersPayload(data).value else []
  }

  ghost predicate All80(raws: seq<Bytes>) {
    forall i :: 0 <= i < |raws| ==> |raws[i]| == 80
  }

  /**
   * A message of headers is handled as their list; one that is too short, or empty, raises
   * (unless, for an empty one, some header hashes like the empty string).
   */
  ghost predicate ReorgSafeMessage(sha256: Blocks.Hash, t: Tree, data: Bytes, genesis: Bytes, after: Tree, result: NewTip)
    requires HeaderTree.Valid(t) && HasGenesis(t, genesis)
  {
    var raws := RawHeaders(data);
    All80(raws) &&
    if Codec.ParseHeadersPayload(data).Raised? then
      after == ConnectMessage(sha256, t, data, genesis).tree && result.Raised?
    else if raws == [] then
      after == t && (sha256(sha256([])) !in t.at ==> result.Raised?)
    else (after, result) == ReorgSafe(t, HeadersOf(sha256, raws), genesis)
  }

  function FirstRaw(data: Bytes, done: nat): Bytes {
    match UnpackVarint(data, 0)
    case None => []
    case Some(count) => if done == 0 then [] else Codec.ReadAt(data, count.next, 80)
  }

  /** A header connected without a write: the file stays in step with what it covers. */
  lemma ConnectKeepsStep(genesis: Header, t: Tree, h: Header, cursor: Cursor, file: seq<Header>)
    requires HeaderTree.Valid(t) && HasGenesis(t, genesis.hash) && InStep(genesis, t, cursor, file)
    requires Connect(t, h).Some?
    ensures var next := Connect(t, h).value;
      HeaderTree.Valid(next) && HasGenesis(next, genesis.hash) && InStep(genesis, next, cursor, file)
  {
    hide InStep, Connect, HeaderTree.Valid, Grows;
    ConnectKeepsValid(t, h);
    ConnectAddsOne(t, h);
    GrowthKeepsStep(genesis, t, Connect(t, h).value, cursor, file);
  }

  lemma EmptyBatch(sha256: Blocks.Hash, t: Tree, genesis: Bytes)
    requires HeaderTree.Valid(t)
    ensures ConnectBatch(t, HeadersOf(sha256, []), genesis) == Connected(t, AllConnected, 0)
  {
  }

  lemma FirstHash(sha256: Blocks.Hash, raws: seq<Bytes>)
    requires raws != [] && All80(raws)
    ensures HeadersOf(sha256, raws)[0].hash == Blocks.DoubleSha256(sha256, raws[0])
  {
  }

  lemma StreamUnfolds(sha256: Blocks.Hash, t: Tree, data: Bytes, at: nat, count: nat, genesis: Bytes)
    requires HeaderTree.Valid(t) && HasGenesis(t, genesis) && count > 0
    ensures var r := ConnectStream(sha256, t, data, at, count, genesis);
      match UnpackVarint(data, at + 80)
      case None => r == Connected(t, Truncated, 0)
      case Some(txCount) =>
        var h := HeaderOf(sha256, data[at..at + 80]);
        match Connect(t, h)
        case None => h.prev != genesis && r == Connected(t, Missing, 0)
        case Some(next) =>
          HeaderTree.Valid(next) &&
          var rest := ConnectStream(sha256, next, data, txCount.next, count - 1, genesis);
          r == Connected(rest.tree, rest.ending, rest.done + 1)
  {
    hide HeaderTree.Valid, HeaderOf, UnpackVarint, Attach;
    if UnpackVarint(data, at + 80).Some? {
      var h := HeaderOf(sha256, data[at..at + 80]);
      if Connect(t, h).Some? {
        ConnectKeepsValid(t, h);
      }
    }
  }

  lemma StreamEnds(sha256: Blocks.Hash, t: Tree, data: Bytes, at: nat, genesis: Bytes)
    requires HeaderTree.Valid(t)
    ensures ConnectStream(sha256, t, data, at, 0, genesis) == Connected(t, AllConnected, 0)
  {
  }

  /** A message that parses is its batch; one that does not cannot be connected whole. */
  lemma MessageEnds(sha256: Blocks.Hash, t: Tree, data: Bytes, genesis: Bytes)
    requires HeaderTree.Valid(t) && HasGenesis(t, genesis)
    ensures All80(RawHeaders(data)) && FirstRaw(data, 0) == []
    ensures var r, raws := ConnectMessage(sha256, t, data, genesis), RawHeaders(data);
      if Codec.ParseHeadersPayload(data).Raised? then r.ending != AllConnected
      else
        && r == ConnectBatch(t, HeadersOf(sha256, raws), genesis)
        && (r.done > 0 ==> raws != [] && FirstRaw(data, r.done) == raws[0])
        && (r.ending == AllConnected ==> r.done == |raws|)
  {
    hide HeaderTree.Valid, HeaderOf, UnpackVarint, Connect;
    var count := UnpackVarint(data, 0);
    if count.Some? {
      if Codec.ParseHeadersPayload(data).Parsed? {
        StreamIsBatch(sha256, t, data, count.value.next, count.value.value, genesis);
        BatchAddsExactly(t, HeadersOf(sha256, RawHeaders(data)), genesis);
      } else {
        TruncatedStream(sha256, t, data, count.value.next, count.value.value, genesis);
      }
    }
  }

  lemma {:induction false} TruncatedStream(sha256: Blocks.Hash, t: Tree, data: Bytes, at: nat, count: nat, genesis: Bytes)
    requires HeaderTree.Valid(t) && HasGenesis(t, genesis) && Codec.ParseHeaders(data, at, count).Raised?
    ensures ConnectStream(sha256, t, data, at, count, genesis).ending != AllConnected
    decreases count
  {
    hide HeaderTree.Valid, HeaderOf, UnpackVarint, Connect;
    StreamUnfolds(sha256, t, data, at, count, genesis);
    if UnpackVarint(data, at + 80).Some? {
      var h, next := HeaderOf(sha256, data[at..at + 80]), UnpackVarint(data, at + 80).value.next;
      if Connect(t, h).Some? {
        ConnectAddsOne(t, h);
        TruncatedStream(sha256, Connect(t, h).value, data, next, count - 1, genesis);
      }
    }
  }

  /** The tips of chains are found by their hash alone. */
  lemma {:induction false} TipFound(t: Tree, loc: Loc, n: nat)
    requires HeaderTree.Valid(t) && IsLoc(t.chains, loc) && n <= |t.chains|
    ensures ChainWithTip(t, HeaderAt(t.chains, loc).hash, n)
         == if IsTip(t, loc) && loc.chain < n then Some(loc.chain) else None
    decreases n
  {
    if n > 0 {
      TipFound(t, loc, n - 1);
      ChainIsGood(t.chains, n - 1);
      var tip := Loc(n - 1, t.chains[n - 1].Top());
      assert IsLoc(t.chains, tip) && HeaderAt(t.chains, tip) == Last(t.chains[n - 1].hdrs);
    }
  }

  /** The last of the first `n` chains that ends in the given hash. */
  function ChainWithTip(t: Tree, hash: Bytes, n: nat): (r: Option<nat>)
    requires HeaderTree.Valid(t) && n <= |t.chains|
    ensures r.Some? ==> r.value < n
  {
    if n == 0 then None
    else
      ChainIsGood(t.chains, n - 1);
      if Last(t.chains[n - 1].hdrs).hash == hash then Some(n - 1) else ChainWithTip(t, hash, n - 1)
  }

  lemma {:induction false} ReplayGrows(t: Tree, file: seq<Header>)
    requires HeaderTree.Valid(t) && Replay(t, file).Some?
    ensures t.at.Keys <= Replay(t, file).value.at.Keys
    decreases |file|
  {
    hide HeaderTree.Valid, Attach;
    if file != [] {
      ConnectKeepsValid(t, file[0]);
      ConnectAddsOne(t, file[0]);
      ReplayGrows(Connect(t, file[0]).value, file[1..]);
    }
  }

  lemma CopyOfItself(t: Tree)
    requires HeaderTree.Valid(t)
    ensures Copies(t, t, FullCursor(t))
  {
    forall i | 0 <= i < |t.chains|
      ensures t.chains[i].hdrs != [] && t.chains[i].hdrs[..|t.chains[i].hdrs|] == t.chains[i].hdrs
    {
      ChainIsGood(t.chains, i);
    }
  }

  // ----- walking down a chain -----

  lemma OnItsChain(t: Tree, loc: Loc)
    requires HeaderTree.Valid(t) && IsLoc(t.chains, loc)
    ensures GoodChains(t.chains) && loc.height < |FullChain(t.chains, loc.chain)|
    ensures FullChain(t.chains, loc.chain)[loc.height] == HeaderAt(t.chains, loc)
  {
    hide FullChain;
    OwnPart(t.chains, loc.chain, loc.height);
  }

  lemma ParentIsFound(t: Tree, i: nat, k: nat)
    requires HeaderTree.Valid(t) && i < |t.chains| && k < |FullChain(t.chains, i)|
    ensures var h := FullChain(t.chains, i)[k];
      && h.hash in t.at && HeaderAt(t.chains, t.at[h.hash]) == h
      && (k > 0 ==> h.prev in t.at && HeaderAt(t.chains, t.at[h.prev]) == FullChain(t.chains, i)[k - 1])
  {
    hide FullChain, GoodChains;
    ChainIndexed(t, i, k);
    if k > 0 {
      ChainLinked(t.chains, i, k);
      ChainIndexed(t, i, k - 1);
    }
  }

  lemma DifferentHeights(t: Tree, i: nat, j: nat, k: nat)
    requires HeaderTree.Valid(t) && i < |t.chains| && j < |FullChain(t.chains, i)| && k < |FullChain(t.chains, i)|
    requires FullChain(t.chains, i)[j].hash == FullChain(t.chains, i)[k].hash
    ensures j == k
  {
    hide FullChain, GoodChains;
    ChainIndexed(t, i, j);
    ChainIndexed(t, i, k);
  }

  lemma StillToWalk(path: seq<Header>, common: nat, height: nat)
    requires common <= height < |path|
    ensures common == height ==> Reversed(HashList(path[common + 1..height + 1])) == []
    ensures common < height ==>
      Reversed(HashList(path[common + 1..height + 1]))
      == [path[height].hash] + Reversed(HashList(path[common + 1..height]))
  {
  }

  // ----- any run of batches -----

  /** Memory, cursor and file together. */
  datatype Saved = Saved(tree: Tree, cursor: Cursor, file: seq<Header>)

  /** What one batch does to them: a write follows only when all of it was connected. */
  ghost function RunBatch(genesis: Header, s: Saved, batch: seq<Header>): (r: Saved)
    requires HeaderTree.Valid(s.tree)
    ensures HeaderTree.Valid(r.tree)
  {
    var c := ConnectBatch(s.tree, batch, genesis.hash);
    if c.ending == AllConnected then
      Saved(c.tree, FullCursor(c.tree), s.file + Unpersisted(c.tree, s.cursor, 0))
    else s.(tree := c.tree)
  }

  ghost function RunBatches(genesis: Header, batches: seq<seq<Header>>): (r: Saved)
    ensures HeaderTree.Valid(r.tree)
    decreases |batches|
  {
    RootedIsValid(genesis);
    if batches == [] then Saved(Rooted(genesis), FullCursor(Rooted(genesis)), [])
    else RunBatch(genesis, RunBatches(genesis, AllButLast(batches)), Last(batches))
  }

  lemma {:induction false} RunsStayInStep(genesis: Header, batches: seq<seq<Header>>)
    ensures var s := RunBatches(genesis, batches);
      InStep(genesis, s.tree, s.cursor, s.file) && HasGenesis(s.tree, genesis.hash)
    decreases |batches|
  {
    hide InStep, HeaderTree.Valid, ConnectBatch, Unpersisted;
    if batches == [] {
      FreshIsInStep(genesis);
    } else {
      RunsStayInStep(genesis, AllButLast(batches));
      var s := RunBatches(genesis, AllButLast(batches));
      var c := ConnectBatch(s.tree, Last(batches), genesis.hash);
      BatchAddsExactly(s.tree, Last(batches), genesis.hash);
      GrowthKeepsStep(genesis, s.tree, c.tree, s.cursor, s.file);
      WriteCatchesUp(genesis, c.tree, s.cursor, s.file);
    }
  }

  /** Over any run of batches no header is written twice. */
  lemma EachHeaderWrittenOnce(genesis: Header, batches: seq<seq<Header>>)
    ensures var file := RunBatches(genesis, batches).file;
      && (forall i, j :: 0 <= i < j < |file| ==> file[i].hash != file[j].hash)
      && (forall i :: 0 <= i < |file| ==> file[i].hash != genesis.hash)
  {
    hide HeaderTree.Valid, NoneKnown, RunBatches;
    RunsWriteOnce(genesis, batches);
    RootedIsValid(genesis);
    NoneKnownMeansDistinct(Rooted(genesis), RunBatches(genesis, batches).file);
  }

  lemma {:induction false} RunsWriteOnce(genesis: Header, batches: seq<seq<Header>>)
    ensures WrittenOnce(genesis, RunBatches(genesis, batches).file)
    decreases |batches|
  {
    hide InStep, HeaderTree.Valid, ConnectBatch, Unpersisted;
    if batches != [] {
      RunsWriteOnce(genesis, AllButLast(batches));
      RunsStayInStep(genesis, AllButLast(batches));
      var s := RunBatches(genesis, AllButLast(batches));
      var c := ConnectBatch(s.tree, Last(batches), genesis.hash);
      BatchAddsExactly(s.tree, Last(batches), genesis.hash);
      GrowthKeepsStep(genesis, s.tree, c.tree, s.cursor, s.file);
      WriteCatchesUp(genesis, c.tree, s.cursor, s.file);
    }
  }

  /**
   * Persistence replay: after any run of batches, failed ones among them, the file replays
   * without a missing parent to a part of memory; and if the last batch succeeded, to all
   * of it, chain by chain, with the headers that earlier failures had left unwritten. A
   * failed batch leaves the file as it was.
   */
  lemma EveryRunIsReplayed(genesis: Header, batches: seq<seq<Header>>)
    ensures (RootedIsValid(genesis); Replay(Rooted(genesis), RunBatches(genesis, batches).file).Some?)
    ensures (RootedIsValid(genesis);
      var s := RunBatches(genesis, batches);
      var r := Replay(Rooted(genesis), s.file).value;
      && r.at.Keys <= s.tree.at.Keys
      && (batches != [] ==>
            var before := RunBatches(genesis, AllButLast(batches));
            var c := ConnectBatch(before.tree, Last(batches), genesis.hash);
            && s.tree == c.tree
            && if c.ending == AllConnected then r.chains == s.tree.chains && r.at == s.tree.at
               else s.file == before.file && s.cursor == before.cursor))
  {
    hide InStep, HeaderTree.Valid, ConnectBatch, Unpersisted, Replay;
    var s := RunBatches(genesis, batches);
    RunsStayInStep(genesis, batches);
    ReplayIsFaithful(genesis, s.tree, s.cursor, s.file);
  }
}
