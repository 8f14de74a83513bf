/**
 * The file of headers: appended to chain by chain from a cursor, and replayed from an
 * empty store. A record of the file is a header.
 */
module Persistence {
  import opened ByteStrings
  import opened HeaderTree

  /** How many headers of each chain are in the file; chains beyond its end have none. */
  type Cursor = seq<nat>

  /** The cursor after a write: everything. */
  function FullCursor(t: Tree): Cursor {
    seq(|t.chains|, i requires 0 <= i < |t.chains| => |t.chains[i].hdrs|)
  }

  function Persisted(cursor: Cursor, i: nat): nat {
    if i < |cursor| then cursor[i] else 0
  }

  /** `unpersisted_headers`, from chain `i` on. */
  function Unpersisted(t: Tree, cursor: Cursor, i: nat): seq<Header>
    requires i <= |t.chains|
    decreases |t.chains| - i
  {
    if i == |t.chains| then []
    else Drop(t.chains[i].hdrs, Persisted(cursor, i)) + Unpersisted(t, cursor, i + 1)
  }

  /** Connecting the records one by one; `None` is a MissingHeader on the way. */
  function Replay(t: Tree, file: seq<Header>): (r: Option<Tree>)
    requires Valid(t)
    ensures r.Some? ==> Valid(r.value)
    decreases |file|
  {
    hide Valid;
    if file == [] then Some(t)
    else
      match Connect(t, file[0])
      case None => None
      case Some(next) =>
        ConnectKeepsValid(t, file[0]);
        Replay(next, file[1..])
  }

  lemma {:induction false} ReplayAppend(t: Tree, a: seq<Header>, b: seq<Header>)
    requires Valid(t) && Replay(t, a).Some?
    ensures Replay(t, a + b) == Replay(Replay(t, a).value, b)
    decreases |a|
  {
    hide Valid, Connect;
    if a == [] {
      assert a + b == b;
    } else {
      assert (a + b)[1..] == a[1..] + b;
      ConnectKeepsValid(t, a[0]);
      ReplayAppend(Connect(t, a[0]).value, a[1..], b);
    }
  }

  /** Replaying `file` meets no header of `t`, and none twice. */
  ghost predicate NoneKnown(t: Tree, file: seq<Header>)
    requires Valid(t)
    decreases |file|
  {
    hide Valid;
    file == [] ||
    (file[0].hash !in t.at && Connect(t, file[0]).Some? &&
     (ConnectKeepsValid(t, file[0]); NoneKnown(Connect(t, file[0]).value, file[1..])))
  }

  lemma {:induction false} NoneKnownAppend(t: Tree, a: seq<Header>, b: seq<Header>)
    requires Valid(t) && Replay(t, a).Some?
    requires NoneKnown(t, a) && NoneKnown(Replay(t, a).value, b)
    ensures NoneKnown(t, a + b)
    decreases |a|
  {
    hide Valid, Connect;
    if a == [] {
      assert a + b == b;
    } else {
      assert (a + b)[1..] == a[1..] + b;
      ConnectKeepsValid(t, a[0]);
      NoneKnownAppend(Connect(t, a[0]).value, a[1..], b);
    }
  }

  lemma {:induction false} NoneKnownMeansDistinct(t: Tree, file: seq<Header>)
    requires Valid(t) && NoneKnown(t, file)
    ensures forall i :: 0 <= i < |file| ==> file[i].hash !in t.at
    ensures forall i, j :: 0 <= i < j < |file| ==> file[i].hash != file[j].hash
    decreases |file|
  {
    hide Valid, Attach;
    if file != [] {
      ConnectKeepsValid(t, file[0]);
      var next := Connect(t, file[0]).value;
      NoneKnownMeansDistinct(next, file[1..]);
      AttachedKeys(t, file[0]);
      forall i | 0 < i < |file| ensures file[i].hash !in t.at && file[i].hash != file[0].hash {
        assert file[i] == file[1..][i - 1];
      }
      forall i, j | 0 < i < j < |file| ensures file[i].hash != file[j].hash {
        assert file[i] == file[1..][i - 1] && file[j] == file[1..][j - 1];
      }
    }
  }

  lemma AttachedKeys(t: Tree, h: Header)
    requires Valid(t) && h.hash !in t.at && Connect(t, h).Some?
    ensures Connect(t, h).value.at.Keys == t.at.Keys + {h.hash}
  {
  }

  // ----- partial copies of a tree -----

  ghost predicate CursorFits(t: Tree, cursor: Cursor) {
    |cursor| <= |t.chains| && forall i :: 0 <= i < |cursor| ==> 1 <= cursor[i] <= |t.chains[i].hdrs|
  }

  /** `r` has the first chains of `t`, each up to the cursor, and nothing else. */
  ghost predicate Copies(r: Tree, t: Tree, cursor: Cursor) {
    && Valid(r) && Valid(t) && CursorFits(t, cursor) && |r.chains| == |cursor|
    && forall i :: 0 <= i < |cursor| ==>
         r.chains[i] == t.chains[i].(hdrs := t.chains[i].hdrs[..cursor[i]])
  }

  /** A copy holds headers of `t` alone, under the same places. */
  lemma CopiedHeaders(r: Tree, t: Tree, cursor: Cursor, loc: Loc)
    requires Copies(r, t, cursor) && IsLoc(r.chains, loc)
    ensures IsLoc(t.chains, loc) && HeaderAt(t.chains, loc) == HeaderAt(r.chains, loc)
  {
    hide Valid;
  }

  lemma CopyIsSubset(r: Tree, t: Tree, cursor: Cursor)
    requires Copies(r, t, cursor)
    ensures r.at.Keys <= t.at.Keys
    ensures forall h :: h in r.at ==> r.at[h] == t.at[h]
  {
    hide Copies;
    assert Valid(r) && Valid(t) by { CopyIsValid(r, t, cursor); }
    forall h | h in r.at ensures h in t.at && r.at[h] == t.at[h] {
      CopiedHeaders(r, t, cursor, r.at[h]);
    }
  }

  lemma CopyIsValid(r: Tree, t: Tree, cursor: Cursor)
    requires Copies(r, t, cursor)
    ensures Valid(r) && Valid(t)
  {
  }

  /** The header of `t` at a place not copied yet is not in the copy. */
  lemma NotCopied(r: Tree, t: Tree, cursor: Cursor, i: nat, j: nat)
    requires Copies(r, t, cursor) && i < |t.chains| && Persisted(cursor, i) <= j < |t.chains[i].hdrs|
    ensures t.chains[i].hdrs[j].hash !in r.at
  {
    var loc := Loc(i, t.chains[i].base + j);
    assert IsLoc(t.chains, loc) && HeaderAt(t.chains, loc) == t.chains[i].hdrs[j];
    CopyIsSubset(r, t, cursor);
    assert !IsLoc(r.chains, loc);
  }

  /** The next header of a copied chain belongs on the chain's tip. */
  lemma NextOnTip(r: Tree, t: Tree, cursor: Cursor, i: nat)
    requires Copies(r, t, cursor) && i < |cursor| && cursor[i] < |t.chains[i].hdrs|
    ensures var h := t.chains[i].hdrs[cursor[i]];
      h.hash !in r.at && h.prev in r.at && r.at[h.prev] == Loc(i, r.chains[i].Top())
  {
    var c, n := t.chains[i], cursor[i];
    NotCopied(r, t, cursor, i, n);
    ChainIsGood(t.chains, i);
    var tip := Loc(i, c.base + n - 1);
    assert IsLoc(r.chains, tip) && HeaderAt(r.chains, tip) == c.hdrs[n - 1];
  }

  lemma CopyOneMore(r: Tree, t: Tree, cursor: Cursor, i: nat)
    requires Copies(r, t, cursor) && i < |cursor| && cursor[i] < |t.chains[i].hdrs|
    ensures var h := t.chains[i].hdrs[cursor[i]];
      Connect(r, h).Some? && Copies(Connect(r, h).value, t, cursor[i := cursor[i] + 1])
  {
    hide Valid;
    var c, n := t.chains[i], cursor[i];
    var h := c.hdrs[n];
    NextOnTip(r, t, cursor, i);
    ConnectKeepsValid(r, h);
    TipAttaches(r, h, i) by { CopyHasBest(r, t, cursor); }
    assert c.hdrs[..n] + [h] == c.hdrs[..n + 1];
  }

  lemma CopyHasBest(r: Tree, t: Tree, cursor: Cursor)
    requires Copies(r, t, cursor)
    ensures r.best < |r.chains|
  {
  }

  lemma TipAttaches(r: Tree, h: Header, i: nat)
    requires i < |r.chains| && r.best < |r.chains| && r.chains[i].Top() >= 0
    ensures Attach(r, h, Loc(i, r.chains[i].Top())).chains
         == r.chains[i := r.chains[i].(hdrs := r.chains[i].hdrs + [h])]
  {
  }

  /** The first header of the next chain forks off below the tip of a chain copied whole. */
  lemma CopyNewChain(r: Tree, t: Tree, cursor: Cursor)
    requires Copies(r, t, cursor) && |cursor| < |t.chains|
    requires forall k :: 0 <= k < |cursor| ==> cursor[k] == |t.chains[k].hdrs|
    ensures t.chains[|cursor|].hdrs != []
    ensures var h := t.chains[|cursor|].hdrs[0];
      h.hash !in r.at && Connect(r, h).Some? && Copies(Connect(r, h).value, t, cursor + [1])
  {
    var i := |cursor|;
    var c := t.chains[i];
    ChainIsGood(t.chains, i);
    var h := c.hdrs[0];
    NotCopied(r, t, cursor, i, 0);
    var fork := Loc(c.parent, c.base - 1);
    assert r.chains[c.parent] == t.chains[c.parent] by {
      assert t.chains[c.parent].hdrs[..cursor[c.parent]] == t.chains[c.parent].hdrs;
    }
    assert IsLoc(r.chains, fork) && HeaderAt(r.chains, fork) == HeaderAt(t.chains, fork);
    assert r.at[h.prev] == fork;
    ConnectKeepsValid(r, h);
    assert c.hdrs[..1] == [h];
  }

  /** Replaying the rest of a copied chain completes it. */
  lemma {:induction false} CopyRest(r: Tree, t: Tree, cursor: Cursor, i: nat)
    requires Copies(r, t, cursor) && i < |cursor|
    ensures var rest := t.chains[i].hdrs[cursor[i]..];
      && Replay(r, rest).Some? && Copies(Replay(r, rest).value, t, cursor[i := |t.chains[i].hdrs|])
      && NoneKnown(r, rest)
    decreases |t.chains[i].hdrs| - cursor[i]
  {
    hide Valid, Connect;
    var hdrs := t.chains[i].hdrs;
    var rest := hdrs[cursor[i]..];
    if cursor[i] == |hdrs| {
      assert cursor[i := |hdrs|] == cursor;
    } else {
      CopyOneMore(r, t, cursor, i);
      NextOnTip(r, t, cursor, i);
      var more := cursor[i := cursor[i] + 1];
      CopyRest(Connect(r, rest[0]).value, t, more, i);
      assert rest[1..] == hdrs[more[i]..];
      assert more[i := |hdrs|] == cursor[i := |hdrs|];
    }
  }

  /** The cursor when the chains before `i` have been copied whole. */
  ghost predicate WholeBefore(t: Tree, cursor: Cursor, i: nat) {
    i <= |cursor| <= |t.chains| && forall k :: 0 <= k < i ==> cursor[k] == |t.chains[k].hdrs|
  }

  /** Writing the rest of one chain. */
  lemma CopyChain(r: Tree, t: Tree, cursor: Cursor, i: nat) returns (after: Cursor)
    requires Copies(r, t, cursor) && i < |t.chains| && WholeBefore(t, cursor, i)
    ensures var part := Drop(t.chains[i].hdrs, Persisted(cursor, i));
      && Replay(r, part).Some? && Copies(Replay(r, part).value, t, after) && NoneKnown(r, part)
      && WholeBefore(t, after, i + 1)
      && forall k :: i < k ==> Persisted(after, k) == Persisted(cursor, k)
  {
    hide Valid, Connect;
    var hdrs := t.chains[i].hdrs;
    if i < |cursor| {
      CopyRest(r, t, cursor, i);
      after := cursor[i := |hdrs|];
    } else {
      CopyNewChain(r, t, cursor);
      var begun := cursor + [1];
      CopyRest(Connect(r, hdrs[0]).value, t, begun, i);
      after := begun[i := |hdrs|];
      assert Drop(hdrs, 0) == hdrs && hdrs[1..] == hdrs[begun[i]..];
    }
  }

  lemma {:induction false} CopyAll(r: Tree, t: Tree, cursor: Cursor, i: nat)
    requires Copies(r, t, cursor) && i <= |t.chains| && WholeBefore(t, cursor, i)
    ensures var part := Unpersisted(t, cursor, i);
      Replay(r, part).Some? && Copies(Replay(r, part).value, t, FullCursor(t)) && NoneKnown(r, part)
    decreases |t.chains| - i
  {
    hide Valid, Connect, Copies, Replay, NoneKnown;
    assert Valid(r) by { CopyIsValid(r, t, cursor); }
    if i == |t.chains| {
      NothingToReplay(r);
      assert cursor == FullCursor(t);
    } else {
      var after := CopyChain(r, t, cursor, i);
      var part := Drop(t.chains[i].hdrs, Persisted(cursor, i));
      ReplayAppend(r, part, Unpersisted(t, cursor, i + 1));
      SameRest(t, cursor, after, i + 1);
      CopyAll(Replay(r, part).value, t, after, i + 1);
      NoneKnownAppend(r, part, Unpersisted(t, cursor, i + 1));
    }
  }

  lemma NothingToReplay(r: Tree)
    requires Valid(r)
    ensures Replay(r, []) == Some(r) && NoneKnown(r, [])
  {
  }

  lemma {:induction false} SameRest(t: Tree, a: Cursor, b: Cursor, i: nat)
    requires i <= |t.chains| && forall k :: i <= k ==> Persisted(a, k) == Persisted(b, k)
    ensures Unpersisted(t, a, i) == Unpersisted(t, b, i)
    decreases |t.chains| - i
  {
    if i < |t.chains| {
      SameRest(t, a, b, i + 1);
    }
  }

  // ----- the main results -----

  /** What holds between writes: the file replays to the part of memory the cursor covers. */
  ghost predicate InStep(genesis: Header, t: Tree, cursor: Cursor, file: seq<Header>) {
    RootedIsValid(genesis);
    Replay(Rooted(genesis), file).Some? && Copies(Replay(Rooted(genesis), file).value, t, cursor)
  }

  lemma FreshIsInStep(genesis: Header)
    ensures InStep(genesis, Rooted(genesis), FullCursor(Rooted(genesis)), [])
  {
    RootedIsValid(genesis);
    assert [genesis][..1] == [genesis];
  }

  /** The file has no header twice, and not the genesis header, which every store starts with. */
  ghost predicate WrittenOnce(genesis: Header, file: seq<Header>) {
    RootedIsValid(genesis);
    NoneKnown(Rooted(genesis), file)
  }

  /**
   * A write brings the file up to all of memory, whatever earlier batches left unwritten, and
   * appends nothing that is in the file already.
   */
  lemma WriteCatchesUp(genesis: Header, t: Tree, cursor: Cursor, file: seq<Header>)
    requires InStep(genesis, t, cursor, file)
    ensures InStep(genesis, t, FullCursor(t), file + Unpersisted(t, cursor, 0))
    ensures WrittenOnce(genesis, file) ==> WrittenOnce(genesis, file + Unpersisted(t, cursor, 0))
  {
    hide Copies, Replay, Valid, NoneKnown;
    RootedIsValid(genesis);
    var r := Replay(Rooted(genesis), file).value;
    CopyAll(r, t, cursor, 0) by { CopyFits(r, t, cursor); }
    ReplayAppend(Rooted(genesis), file, Unpersisted(t, cursor, 0));
    if WrittenOnce(genesis, file) {
      NoneKnownAppend(Rooted(genesis), file, Unpersisted(t, cursor, 0));
    }
  }

  lemma CopyFits(r: Tree, t: Tree, cursor: Cursor)
    requires Copies(r, t, cursor)
    ensures WholeBefore(t, cursor, 0)
  {
  }

  /** Connecting headers without a write keeps the file in step with the part it covers. */
  lemma GrowthKeepsStep(genesis: Header, t: Tree, after: Tree, cursor: Cursor, file: seq<Header>)
    requires InStep(genesis, t, cursor, file) && Valid(after) && Grows(t.chains, after.chains)
    ensures InStep(genesis, after, cursor, file)
  {
    hide Replay, Valid;
    RootedIsValid(genesis);
    var r := Replay(Rooted(genesis), file).value;
    forall i | 0 <= i < |cursor|
      ensures r.chains[i] == after.chains[i].(hdrs := after.chains[i].hdrs[..cursor[i]])
    {
      assert t.chains[i].hdrs[..cursor[i]] == after.chains[i].hdrs[..cursor[i]];
    }
  }

  /**
   * At all times the file replays without a missing parent, to a subset of memory; after
   * a write it replays to exactly the chains in memory, with every header at its place.
   */
  lemma ReplayIsFaithful(genesis: Header, t: Tree, cursor: Cursor, file: seq<Header>)
    requires InStep(genesis, t, cursor, file)
    ensures (RootedIsValid(genesis); Replay(Rooted(genesis), file).Some?)
    ensures (RootedIsValid(genesis);
      var r := Replay(Rooted(genesis), file).value;
      && r.at.Keys <= t.at.Keys
      && (cursor == FullCursor(t) ==> r.chains == t.chains && r.at == t.at
                                      && r.chains[r.best].Top() == t.chains[t.best].Top()))
  {
    hide Replay;
    RootedIsValid(genesis);
    var r := Replay(Rooted(genesis), file).value;
    CopyIsSubset(r, t, cursor);
    if cursor == FullCursor(t) {
      forall i | 0 <= i < |cursor| ensures r.chains[i] == t.chains[i] {
        assert t.chains[i].hdrs[..|t.chains[i].hdrs|] == t.chains[i].hdrs;
      }
      assert r.chains == t.chains;
      forall h | h in t.at ensures h in r.at && r.at[h] == t.at[h] {
        assert IsLoc(r.chains, t.at[h]);
      }
    }
  }
}
