/** Connecting the headers of one message, one after the other. */
module Batches {
  import opened ByteStrings
  import opened HeaderTree
  import Blocks
  import Codec

  /** How a batch ended; `Truncated` is the exception of a message that is too short. */
  datatype Ending = AllConnected | Missing | Truncated

  datatype Connected = Connected(tree: Tree, ending: Ending, done: nat)

  /**
   * A header whose parent is missing is skipped if that parent is the genesis block, and
   * otherwise ends the batch. `done` counts the headers before the end.
   */
  function ConnectBatch(t: Tree, batch: seq<Header>, genesis: Bytes): (r: Connected)
    requires Valid(t)
    ensures Valid(r.tree) && r.done <= |batch| && r.ending != Truncated
    decreases |batch|
  {
    hide Valid;
    if batch == [] then Connected(t, AllConnected, 0)
    else
      match Connect(t, batch[0])
      case Some(next) =>
        ConnectKeepsValid(t, batch[0]);
        var rest := ConnectBatch(next, batch[1..], genesis);
        rest.(done := rest.done + 1)
      case None =>
        if batch[0].prev == genesis then
          var rest := ConnectBatch(t, batch[1..], genesis);
          rest.(done := rest.done + 1)
        else Connected(t, Missing, 0)
  }

  ghost predicate HasGenesis(t: Tree, genesis: Bytes) {
    genesis in t.at
  }

  function Hashes(s: seq<Header>): set<Bytes> {
    set h | h in s :: h.hash
  }

  lemma ConnectAddsOne(t: Tree, h: Header)
    requires Valid(t) && Connect(t, h).Some?
    ensures var after := Connect(t, h).value;
      && after.at.Keys == t.at.Keys + {h.hash}
      && Grows(t.chains, after.chains)
      && (forall x :: x in t.at ==> after.at[x] == t.at[x])
      && (forall loc :: IsLoc(t.chains, loc) ==>
            IsLoc(after.chains, loc) && HeaderAt(after.chains, loc) == HeaderAt(t.chains, loc))
  {
    if h.hash !in t.at {
      AttachKeepsChains(t, h, t.at[h.prev]);
    }
  }

  /**
   * A batch never removes or moves a header. It adds exactly the headers before its end:
   * all of them on success, and on failure those before the first one that cannot be
   * connected, whose parent is then neither in the store nor among them.
   */
  lemma {:induction false} BatchAddsExactly(t: Tree, batch: seq<Header>, genesis: Bytes)
    requires Valid(t) && HasGenesis(t, genesis)
    ensures var r := ConnectBatch(t, batch, genesis);
      && r.tree.at.Keys == t.at.Keys + Hashes(batch[..r.done])
      && (forall x :: x in t.at ==> r.tree.at[x] == t.at[x])
      && Grows(t.chains, r.tree.chains)
      && (r.ending == AllConnected <==> r.done == |batch|)
      && (r.done < |batch| ==> batch[r.done].prev !in r.tree.at && batch[r.done].hash !in r.tree.at)
    decreases |batch|
  {
    hide Valid, Grows, Attach;
    var r := ConnectBatch(t, batch, genesis);
    if batch == [] {
      GrowsItself(t.chains);
    } else if Connect(t, batch[0]).Some? {
      var next := Connect(t, batch[0]).value;
      ConnectKeepsValid(t, batch[0]);
      ConnectAddsOne(t, batch[0]);
      BatchAddsExactly(next, batch[1..], genesis);
      var rest := ConnectBatch(next, batch[1..], genesis);
      GrowsTransitively(t.chains, next.chains, r.tree.chains);
      assert batch[..r.done] == [batch[0]] + batch[1..][..rest.done];
      assert Hashes(batch[..r.done]) == {batch[0].hash} + Hashes(batch[1..][..rest.done]);
    } else {
      GrowsItself(t.chains);
      assert batch[0].prev != genesis;
      assert batch[..0] == [];
    }
  }

  lemma GrowsItself(chains: seq<Chain>)
    ensures Grows(chains, chains)
  {
  }

  /** Headers that are in the store stay what they are. */
  lemma {:induction false} BatchKeepsHeaders(t: Tree, batch: seq<Header>, genesis: Bytes, loc: Loc)
    requires Valid(t) && IsLoc(t.chains, loc)
    ensures var after := ConnectBatch(t, batch, genesis).tree;
            IsLoc(after.chains, loc) && HeaderAt(after.chains, loc) == HeaderAt(t.chains, loc)
    decreases |batch|
  {
    hide Valid, IsLoc, HeaderAt, Attach;
    if batch != [] {
      if Connect(t, batch[0]).Some? {
        ConnectKeepsValid(t, batch[0]);
        ConnectAddsOne(t, batch[0]);
        BatchKeepsHeaders(Connect(t, batch[0]).value, batch[1..], genesis, loc);
      } else if batch[0].prev == genesis {
        BatchKeepsHeaders(t, batch[1..], genesis, loc);
      }
    }
  }

  // ----- from the bytes of a message -----

  function HeaderOf(sha256: Blocks.Hash, raw: Bytes): Header
    requires |raw| == 80
  {
    Header(Blocks.DoubleSha256(sha256, raw), raw[4..36], raw)
  }

  function HeadersOf(sha256: Blocks.Hash, raws: seq<Bytes>): (s: seq<Header>)
    requires forall i :: 0 <= i < |raws| ==> |raws[i]| == 80
    ensures |s| == |raws|
  {
    seq(|raws|, i requires 0 <= i < |raws| => HeaderOf(sha256, raws[i]))
  }

  /** The fields of a raw header, in the order they are sent. */
  datatype RawHeader =
    RawHeader(version: Bytes, prev: Bytes, merkleRoot: Bytes, time: Bytes, bits: Bytes, nonce: Bytes)
  {
    predicate Valid() {
      |version| == |time| == |bits| == |nonce| == 4 && |prev| == |merkleRoot| == 32
    }
    function Encode(): (raw: Bytes)
      requires Valid()
      ensures |raw| == 80
    {
      version + prev + merkleRoot + time + bits + nonce
    }
  }

  function EncodeAll(ws: seq<RawHeader>): (raws: seq<Bytes>)
    requires forall i :: 0 <= i < |ws| ==> ws[i].Valid()
    ensures |raws| == |ws| && forall i :: 0 <= i < |raws| ==> |raws[i]| == 80
  {
    seq(|ws|, i requires 0 <= i < |ws| => ws[i].Encode())
  }

  /** A header is known by the double hash of its bytes, and stands on the one its second field names. */
  lemma HeadersRead(sha256: Blocks.Hash, ws: seq<RawHeader>)
    requires forall i :: 0 <= i < |ws| ==> ws[i].Valid()
    ensures var headers := HeadersOf(sha256, EncodeAll(ws));
      forall i :: 0 <= i < |ws| ==>
        headers[i] == Header(sha256(sha256(ws[i].Encode())), ws[i].prev, ws[i].Encode())
  {
    forall i | 0 <= i < |ws| ensures ws[i].Encode()[4..36] == ws[i].prev {
    }
  }

  /** The loop of `connect_headers`: each header is connected before the next one is read. */
  function ConnectStream(sha256: Blocks.Hash, t: Tree, data: Bytes, at: nat, count: nat, genesis: Bytes): (r: Connected)
    requires Valid(t)
    ensures Valid(r.tree) && r.done <= count
    decreases count
  {
    hide Valid;
    if count == 0 then Connected(t, AllConnected, 0)
    else
      match UnpackVarint(data, at + 80)
      case None => Connected(t, Truncated, 0)
      case Some(txCount) =>
        var h := HeaderOf(sha256, data[at..at + 80]);
        match Connect(t, h)
        case Some(next) =>
          ConnectKeepsValid(t, h);
          var rest := ConnectStream(sha256, next, data, txCount.next, count - 1, genesis);
          rest.(done := rest.done + 1)
        case None =>
          if h.prev == genesis then
            var rest := ConnectStream(sha256, t, data, txCount.next, count - 1, genesis);
            rest.(done := rest.done + 1)
          else Connected(t, Missing, 0)
  }

  /** Reading and connecting in turn is parsing the whole message and connecting the list. */
  lemma {:induction false} StreamIsBatch(sha256: Blocks.Hash, t: Tree, data: Bytes, at: nat, count: nat, genesis: Bytes)
    requires Valid(t) && Codec.ParseHeaders(data, at, count).Parsed?
    ensures var raws := Codec.ParseHeaders(data, at, count).value;
      && (forall i :: 0 <= i < |raws| ==> |raws[i]| == 80)
      && ConnectStream(sha256, t, data, at, count, genesis)
         == ConnectBatch(t, HeadersOf(sha256, raws), genesis)
    decreases count
  {
    hide Valid, Connect, HeaderOf, UnpackVarint;
    if count > 0 {
      var txCount := UnpackVarint(data, at + 80).value;
      var h := HeaderOf(sha256, data[at..at + 80]);
      var raws := Codec.ParseHeaders(data, at, count).value;
      var rest := Codec.ParseHeaders(data, txCount.next, count - 1).value;
      assert raws == [data[at..at + 80]] + rest;
      StreamIsBatch(sha256, t, data, txCount.next, count - 1, genesis);
      assert HeadersOf(sha256, raws)[1..] == HeadersOf(sha256, rest);
      if Connect(t, h).Some? {
        ConnectKeepsValid(t, h);
        StreamIsBatch(sha256, Connect(t, h).value, data, txCount.next, count - 1, genesis);
      }
    }
  }
}
