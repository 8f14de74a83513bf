/** Payload printers and parsers for inv, getdata, headers and getheaders. */
module Codec {
  import opened ByteStrings
  import opened Session
  import opened Framing
  import Blocks

  const MAX_UINT64 := 0xFFFF_FFFF_FFFF_FFFF
  const PROTOCOL_VERSION := 70016

  /** `b"00" * 32`: sixty-four ASCII zeros. */
  function ZeroHash(): Bytes {
    seq(64, _ => 48)
  }

  /** A hash is kept as its bytes; the hexadecimal text of it is another library's. */
  datatype Inv = Inv(invType: nat, hash: Bytes) {
    predicate Valid() {
      invType <= MAX_UINT32 && |hash| == 32
    }
  }

  datatype BlockLocator = BlockLocator(version: nat, hashes: seq<Bytes>, stop: Bytes)

  /** `None` stands for the exception of a number read beyond the end. */
  datatype Parsed<T> = Parsed(value: T, next: nat) | Raised

  // ----- payloads -----

  function EncodeInvs(invs: seq<Inv>): Bytes {
    if invs == [] then [] else PackLE(invs[0].invType, 4) + invs[0].hash + EncodeInvs(invs[1..])
  }

  function InvPayload(invs: seq<Inv>): Bytes
    requires |invs| <= MAX_UINT64
  {
    PackVarint(|invs|) + EncodeInvs(invs)
  }

  /** Each raw header is followed by a transaction count of zero. */
  function EncodeHeaders(raws: seq<Bytes>): Bytes {
    if raws == [] then [] else raws[0] + PackVarint(0) + EncodeHeaders(raws[1..])
  }

  function HeadersPayload(raws: seq<Bytes>): Bytes
    requires |raws| <= MAX_UINT64
  {
    PackVarint(|raws|) + EncodeHeaders(raws)
  }

  /** The count is an argument of its own; nothing compares it with the list. */
  function LocatorPayload(count: nat, hashes: seq<Bytes>, stop: Bytes): Bytes
    requires count <= MAX_UINT64
  {
    PackLE(PROTOCOL_VERSION, 4) + PackVarint(count) + Concat(hashes) + stop
  }

  // ----- parsers -----

  /** A plain `read(n)` at the end of a stream returns fewer bytes, and no exception. */
  function ReadAt(data: Bytes, at: nat, n: nat): Bytes {
    Take(Drop(data, at), n)
  }

  /** A list parsed after `first`. */
  function Ahead<T>(first: seq<T>, p: Parsed<seq<T>>): Parsed<seq<T>> {
    match p
    case Parsed(rest, next) => Parsed(first + rest, next)
    case Raised => Raised
  }

  lemma AheadTwice<T>(a: seq<T>, b: seq<T>, p: Parsed<seq<T>>)
    ensures Ahead([], p) == p
    ensures Ahead(a, Ahead(b, p)) == Ahead(a + b, p)
  {
    if p.Parsed? {
      assert [] + p.value == p.value;
      assert a + (b + p.value) == (a + b) + p.value;
    }
  }

  function ParseInvs(data: Bytes, at: nat, count: nat): Parsed<seq<Inv>>
    requires at <= |data|
    decreases count
  {
    if count == 0 then Parsed([], at)
    else if at + 4 > |data| then Raised
    else
      var one := Inv(LittleEndian(data[at..at + 4]), ReadAt(data, at + 4, 32));
      Ahead([one], ParseInvs(data, Min(at + 36, |data|), count - 1))
  }

  function ParseInvPayload(data: Bytes): Parsed<seq<Inv>> {
    match UnpackVarint(data, 0)
    case None => Raised
    case Some(count) => ParseInvs(data, count.next, count.value)
  }

  function ParseHeaders(data: Bytes, at: nat, count: nat): Parsed<seq<Bytes>>
    decreases count
  {
    if count == 0 then Parsed([], at)
    else
      match UnpackVarint(data, at + 80)
      case None => Raised
      case Some(txCount) => Ahead([data[at..at + 80]], ParseHeaders(data, txCount.next, count - 1))
  }

  function ParseHeadersPayload(data: Bytes): Parsed<seq<Bytes>> {
    match UnpackVarint(data, 0)
    case None => Raised
    case Some(count) => ParseHeaders(data, count.next, count.value)
  }

  function ParseHashes(data: Bytes, at: nat, count: nat): (p: Parsed<seq<Bytes>>)
    requires at <= |data|
    ensures p.Parsed?
    decreases count
  {
    if count == 0 then Parsed([], at)
    else Ahead([ReadAt(data, at, 32)], ParseHashes(data, Min(at + 32, |data|), count - 1))
  }

  function ParseLocator(data: Bytes): Parsed<BlockLocator> {
    if |data| < 4 then Raised
    else
      match UnpackVarint(data, 4)
      case None => Raised
      case Some(count) =>
        var Parsed(hashes, at) := ParseHashes(data, count.next, count.value);
        Parsed(BlockLocator(LittleEndian(data[..4]), hashes, ReadAt(data, at, 32)), Min(at + 32, |data|))
  }

  // ----- the loops -----

  /** A BytesIO that is read. */
  class ByteStream {
    const data: Bytes
    var at: nat

    ghost predicate Valid()
      reads this
    {
      at <= |data|
    }

    constructor (data: Bytes)
      ensures Valid() && this.data == data && at == 0
    {
      this.data, at := data, 0;
    }

    method Read(n: nat) returns (s: Bytes)
      requires Valid()
      modifies this
      ensures Valid() && s == ReadAt(data, old(at), n) && at == Min(old(at) + n, |data|)
    {
      s := ReadAt(data, at, n);
      at := Min(at + n, |data|);
    }

    /** `None` when fewer bytes are left. */
    method ReadUint32() returns (n: Option<nat>)
      requires Valid()
      modifies this
      ensures Valid()
      ensures n == if old(at) + 4 <= |data| then Some(LittleEndian(data[old(at)..old(at) + 4])) else None
      ensures n.Some? ==> at == old(at) + 4
    {
      ghost var start := at;
      var s := Read(4);
      assert start + 4 <= |data| ==> s == data[start..start + 4];
      return if |s| == 4 then Some(LittleEndian(s)) else None;
    }

    method ReadVarint() returns (n: Option<nat>)
      requires Valid()
      modifies this
      ensures Valid()
      ensures match UnpackVarint(data, old(at))
              case None => n == None
              case Some(v) => n == Some(v.value) && at == v.next
    {
      var v := UnpackVarint(data, at);
      if v.None? {
        return None;
      }
      at := v.value.next;
      return Some(v.value.value);
    }
  }

  /** `inv` and `getdata` share their layout. */
  method DeserializeInv(f: ByteStream) returns (r: Option<seq<Inv>>)
    requires f.Valid() && f.at == 0
    modifies f
    ensures match ParseInvPayload(f.data)
            case Parsed(invs, next) => r == Some(invs) && f.at == next
            case Raised => r == None
  {
    hide UnpackVarint, LittleEndian, ReadAt;
    var count := f.ReadVarint();
    if count.None? {
      return None;
    }
    ghost var start := f.at;
    var invs: seq<Inv> := [];
    AheadTwice([], [], ParseInvs(f.data, start, count.value));
    for i := 0 to count.value
      invariant f.Valid() && f.at <= |f.data|
      invariant ParseInvs(f.data, start, count.value) == Ahead(invs, ParseInvs(f.data, f.at, count.value - i))
    {
      var invType := f.ReadUint32();
      if invType.None? {
        return None;
      }
      var hash := f.Read(32);
      AheadTwice(invs, [Inv(invType.value, hash)], ParseInvs(f.data, f.at, count.value - i - 1));
      invs := invs + [Inv(invType.value, hash)];
    }
    assert invs + [] == invs;
    return Some(invs);
  }

  method DeserializeHeaders(f: ByteStream) returns (r: Option<seq<Bytes>>)
    requires f.Valid() && f.at == 0
    modifies f
    ensures match ParseHeadersPayload(f.data)
            case Parsed(raws, next) => r == Some(raws) && f.at == next
            case Raised => r == None
  {
    hide UnpackVarint;
    var count := f.ReadVarint();
    if count.None? {
      return None;
    }
    ghost var start := f.at;
    var raws: seq<Bytes> := [];
    AheadTwice([], [], ParseHeaders(f.data, start, count.value));
    for i := 0 to count.value
      invariant f.Valid()
      invariant ParseHeaders(f.data, start, count.value) == Ahead(raws, ParseHeaders(f.data, f.at, count.value - i))
    {
      ghost var at := f.at;
      var raw := f.Read(80);
      NothingAfterEnd(f.data, at);
      var txCount := f.ReadVarint();
      if txCount.None? {
        return None;
      }
      AheadTwice(raws, [raw], ParseHeaders(f.data, f.at, count.value - i - 1));
      raws := raws + [raw];
    }
    assert raws + [] == raws;
    return Some(raws);
  }

  /** After a short read of a header its count cannot be read either. */
  lemma NothingAfterEnd(data: Bytes, at: nat)
    requires at <= |data|
    ensures UnpackVarint(data, Min(at + 80, |data|)) == UnpackVarint(data, at + 80)
    ensures UnpackVarint(data, at + 80).Some? ==> at + 80 <= |data| && ReadAt(data, at, 80) == data[at..at + 80]
  {
  }

  method DeserializeGetHeaders(f: ByteStream) returns (r: Option<BlockLocator>)
    requires f.Valid() && f.at == 0
    modifies f
    ensures match ParseLocator(f.data)
            case Parsed(locator, next) => r == Some(locator) && f.at == next
            case Raised => r == None
  {
    hide UnpackVarint, LittleEndian, ReadAt;
    var version := f.ReadUint32();
    if version.None? {
      return None;
    }
    var count := f.ReadVarint();
    if count.None? {
      return None;
    }
    ghost var start := f.at;
    var hashes: seq<Bytes> := [];
    AheadTwice([], [], ParseHashes(f.data, start, count.value));
    for i := 0 to count.value
      invariant f.Valid() && f.at <= |f.data|
      invariant ParseHashes(f.data, start, count.value) == Ahead(hashes, ParseHashes(f.data, f.at, count.value - i))
    {
      var hash := f.Read(32);
      AheadTwice(hashes, [hash], ParseHashes(f.data, f.at, count.value - i - 1));
      hashes := hashes + [hash];
    }
    assert hashes + [] == hashes;
    var stop := f.Read(32);
    return Some(BlockLocator(version.value, hashes, stop));
  }

  method SerializeInvs(invs: seq<Inv>) returns (payload: Bytes)
    requires |invs| <= MAX_UINT64
    ensures payload == InvPayload(invs)
  {
    payload := PackVarint(|invs|);
    for i := 0 to |invs|
      invariant payload + EncodeInvs(invs[i..]) == InvPayload(invs)
    {
      payload := payload + PackLE(invs[i].invType, 4);
      payload := payload + invs[i].hash;
      assert invs[i..][1..] == invs[i + 1..];
    }
  }

  method HeadersToP2pStruct(raws: seq<Bytes>) returns (payload: Bytes)
    requires |raws| <= MAX_UINT64
    ensures payload == HeadersPayload(raws)
  {
    payload := PackVarint(|raws|);
    for i := 0 to |raws|
      invariant payload + EncodeHeaders(raws[i..]) == HeadersPayload(raws)
    {
      payload := payload + raws[i];
      payload := payload + PackVarint(0);
      assert raws[i..][1..] == raws[i + 1..];
    }
  }

  method SerializeGetHeaders(count: nat, hashes: seq<Bytes>, stop: Bytes) returns (payload: Bytes)
    requires count <= MAX_UINT64
    ensures payload == LocatorPayload(count, hashes, stop)
  {
    var joined: Bytes := [];
    for i := 0 to |hashes|
      invariant joined + Concat(hashes[i..]) == Concat(hashes)
    {
      joined := joined + hashes[i];
      assert hashes[i..][1..] == hashes[i + 1..];
    }
    payload := PackLE(PROTOCOL_VERSION, 4) + PackVarint(count) + joined + stop;
  }

  // ----- round trips -----

  /** `PackVarint` at a given place is read back there. */
  lemma ReadPacked(data: Bytes, before: Bytes, n: nat, after: Bytes)
    requires n <= MAX_UINT64 && data == before + PackVarint(n) + after
    ensures UnpackVarint(data, |before|) == Some(Varint(n, |before| + |PackVarint(n)|))
  {
    UnpackPackVarint(before, n, ShortestTail(n), after);
  }

  lemma {:induction false} InvsRoundTrip(data: Bytes, before: Bytes, invs: seq<Inv>, after: Bytes)
    requires forall i :: 0 <= i < |invs| ==> invs[i].Valid()
    requires data == before + EncodeInvs(invs) + after
    ensures ParseInvs(data, |before|, |invs|) == Parsed(invs, |before| + |EncodeInvs(invs)|)
    decreases |invs|
  {
    hide PackLE, LittleEndian, ReadAt;
    if invs != [] {
      var one, rest := PackLE(invs[0].invType, 4) + invs[0].hash, EncodeInvs(invs[1..]);
      assert data == (before + one) + rest + after;
      OneInv(data, before, invs[0], rest + after) by {
        assert data == before + PackLE(invs[0].invType, 4) + invs[0].hash + (rest + after);
      }
      InvsRoundTrip(data, before + one, invs[1..], after);
      assert invs == [invs[0]] + invs[1..];
    }
  }

  lemma OneInv(data: Bytes, before: Bytes, inv: Inv, after: Bytes)
    requires inv.Valid() && data == before + PackLE(inv.invType, 4) + inv.hash + after
    ensures var at := |before|;
      && at + 36 <= |data| && LittleEndian(data[at..at + 4]) == inv.invType
      && ReadAt(data, at + 4, 32) == inv.hash
  {
    hide PackLE, LittleEndian;
    assert data[|before|..|before| + 4] == PackLE(inv.invType, 4);
    Widths();
    UnpackPackLE(inv.invType, 4);
  }

  /** inv and getdata payloads of any length parse back to the printed list and are consumed exactly. */
  lemma InvPayloadRoundTrip(invs: seq<Inv>, after: Bytes)
    requires |invs| <= MAX_UINT64 && forall i :: 0 <= i < |invs| ==> invs[i].Valid()
    ensures ParseInvPayload(InvPayload(invs) + after) == Parsed(invs, |InvPayload(invs)|)
  {
    hide PackVarint, UnpackVarint;
    var data := InvPayload(invs) + after;
    assert data == [] + PackVarint(|invs|) + (EncodeInvs(invs) + after);
    ReadPacked(data, [], |invs|, EncodeInvs(invs) + after);
    InvsRoundTrip(data, PackVarint(|invs|), invs, after);
  }

  lemma {:induction false} HeadersRoundTrip(data: Bytes, before: Bytes, raws: seq<Bytes>, after: Bytes)
    requires forall i :: 0 <= i < |raws| ==> |raws[i]| == 80
    requires data == before + EncodeHeaders(raws) + after
    ensures ParseHeaders(data, |before|, |raws|) == Parsed(raws, |before| + |EncodeHeaders(raws)|)
    decreases |raws|
  {
    hide PackVarint, UnpackVarint;
    if raws != [] {
      var one, rest := raws[0] + PackVarint(0), EncodeHeaders(raws[1..]);
      assert data == (before + raws[0]) + PackVarint(0) + (rest + after);
      ReadPacked(data, before + raws[0], 0, rest + after);
      assert data == (before + one) + rest + after;
      assert data[|before|..|before| + 80] == raws[0];
      HeadersRoundTrip(data, before + one, raws[1..], after);
      assert raws == [raws[0]] + raws[1..];
    }
  }

  lemma HeadersPayloadRoundTrip(raws: seq<Bytes>, after: Bytes)
    requires |raws| <= MAX_UINT64 && forall i :: 0 <= i < |raws| ==> |raws[i]| == 80
    ensures ParseHeadersPayload(HeadersPayload(raws) + after) == Parsed(raws, |HeadersPayload(raws)|)
  {
    hide PackVarint, UnpackVarint;
    var data := HeadersPayload(raws) + after;
    assert data == [] + PackVarint(|raws|) + (EncodeHeaders(raws) + after);
    ReadPacked(data, [], |raws|, EncodeHeaders(raws) + after);
    HeadersRoundTrip(data, PackVarint(|raws|), raws, after);
  }

  lemma {:induction false} HashesRoundTrip(data: Bytes, before: Bytes, hashes: seq<Bytes>, after: Bytes)
    requires forall i :: 0 <= i < |hashes| ==> |hashes[i]| == 32
    requires data == before + Concat(hashes) + after
    ensures ParseHashes(data, |before|, |hashes|) == Parsed(hashes, |before| + |Concat(hashes)|)
    decreases |hashes|
  {
    hide ReadAt;
    if hashes != [] {
      var rest := Concat(hashes[1..]);
      assert data == (before + hashes[0]) + rest + after;
      OneHash(data, before, hashes[0], rest + after) by {
        assert data == before + hashes[0] + (rest + after);
      }
      HashesRoundTrip(data, before + hashes[0], hashes[1..], after);
      assert hashes == [hashes[0]] + hashes[1..];
    }
  }

  lemma OneHash(data: Bytes, before: Bytes, hash: Bytes, after: Bytes)
    requires |hash| == 32 && data == before + hash + after
    ensures ReadAt(data, |before|, 32) == hash && |before| + 32 <= |data|
  {
  }

  /** What a printed locator parses to, for a stop of any length. */
  lemma LocatorParses(hashes: seq<Bytes>, stop: Bytes)
    requires |hashes| <= MAX_UINT64 && forall i :: 0 <= i < |hashes| ==> |hashes[i]| == 32
    ensures var data := LocatorPayload(|hashes|, hashes, stop);
      ParseLocator(data) == Parsed(BlockLocator(PROTOCOL_VERSION, hashes, Take(stop, 32)),
                                   |data| - |Drop(stop, 32)|)
  {
    hide PackVarint, UnpackVarint, PackLE, LittleEndian;
    var data := LocatorPayload(|hashes|, hashes, stop);
    var version, count := PackLE(PROTOCOL_VERSION, 4), PackVarint(|hashes|);
    assert data[..4] == version;
    Widths();
    UnpackPackLE(PROTOCOL_VERSION, 4);
    assert data == version + count + (Concat(hashes) + stop);
    ReadPacked(data, version, |hashes|, Concat(hashes) + stop);
    HashesRoundTrip(data, version + count, hashes, stop);
    assert Drop(data, |version + count + Concat(hashes)|) == stop;
  }

  /**
   * A getheaders payload parses back to what was printed, and is consumed exactly, just
   * when its stop hash is at most 32 bytes long.
   */
  lemma LocatorRoundTripsExactly(hashes: seq<Bytes>, stop: Bytes)
    requires |hashes| <= MAX_UINT64 && forall i :: 0 <= i < |hashes| ==> |hashes[i]| == 32
    ensures var data := LocatorPayload(|hashes|, hashes, stop);
      ParseLocator(data) == Parsed(BlockLocator(PROTOCOL_VERSION, hashes, stop), |data|) <==> |stop| <= 32
  {
    hide LocatorPayload, ParseLocator;
    LocatorParses(hashes, stop);
    assert Take(stop, 32) == stop <==> |stop| <= 32;
  }

  /** The default stop, ZERO_HASH, is too long: 32 of its bytes stay unread. */
  lemma ZeroHashIsTooLong(hashes: seq<Bytes>)
    requires |hashes| <= MAX_UINT64 && forall i :: 0 <= i < |hashes| ==> |hashes[i]| == 32
    ensures var data := LocatorPayload(|hashes|, hashes, ZeroHash());
      && ParseLocator(data).Parsed? && ParseLocator(data).next == |data| - 32
      && ParseLocator(data).value.stop == seq(32, _ => 48)
  {
    hide LocatorPayload, ParseLocator;
    LocatorParses(hashes, ZeroHash());
  }

  // ----- payloads that are cut short -----

  lemma CutVarint(data: Bytes, cut: nat, at: nat)
    requires cut <= |data|
    ensures UnpackVarint(data[..cut], at) ==
      match UnpackVarint(data, at)
      case None => None
      case Some(v) => if v.next <= cut then Some(v) else None
  {
    VarintWindow(data, 0, cut, at);
    assert data[0..cut] == data[..cut];
  }

  lemma {:induction false} CutHeaders(data: Bytes, cut: nat, at: nat, count: nat)
    requires cut <= |data| && count > 0 && ParseHeaders(data, at, count).Parsed?
    ensures at < ParseHeaders(data, at, count).next
    ensures ParseHeaders(data[..cut], at, count) ==
      if ParseHeaders(data, at, count).next <= cut then ParseHeaders(data, at, count) else Raised
    decreases count
  {
    hide UnpackVarint;
    CutVarint(data, cut, at + 80);
    var next := UnpackVarint(data, at + 80).value.next;
    if count > 1 {
      CutHeaders(data, cut, next, count - 1);
    }
    if next <= cut {
      assert data[..cut][at..at + 80] == data[at..at + 80];
    }
  }

  /** A headers payload is refused wherever it is cut short. */
  lemma CutHeadersRaise(data: Bytes, cut: nat)
    requires ParseHeadersPayload(data).Parsed? && cut < ParseHeadersPayload(data).next && cut <= |data|
    ensures ParseHeadersPayload(data[..cut]) == Raised
  {
    hide UnpackVarint, ParseHeaders;
    CutVarint(data, cut, 0);
    var count := UnpackVarint(data, 0).value;
    if count.value > 0 {
      CutHeaders(data, cut, count.next, count.value);
    } else {
      assert ParseHeaders(data, count.next, 0) == Parsed([], count.next) by { NoHeaders(data, count.next); }
    }
  }

  lemma NoHeaders(data: Bytes, at: nat)
    ensures ParseHeaders(data, at, 0) == Parsed([], at)
  {
  }

  /** The last hash of a list, cut to its first `n` bytes. */
  function WithShortHash(invs: seq<Inv>, n: nat): seq<Inv>
    requires invs != []
  {
    AllButLast(invs) + [Last(invs).(hash := Take(Last(invs).hash, n))]
  }

  /** One item of a list, and a list that is all there. */
  lemma InvStep(data: Bytes, at: nat, count: nat)
    requires at + 4 <= |data| && count > 0
    ensures ParseInvs(data, at, count)
         == Ahead([Inv(LittleEndian(data[at..at + 4]), ReadAt(data, at + 4, 32))],
                  ParseInvs(data, Min(at + 36, |data|), count - 1))
  {
    hide LittleEndian, ReadAt;
  }

  lemma NoInvs(data: Bytes, at: nat)
    requires at <= |data|
    ensures ParseInvs(data, at, 0) == Parsed([], at)
    ensures forall count: nat :: count > 0 && at + 4 > |data| ==> ParseInvs(data, at, count) == Raised
  {
  }

  lemma {:induction false} AllInvsThere(data: Bytes, at: nat, count: nat)
    requires at + 36 * count <= |data|
    ensures ParseInvs(data, at, count).Parsed? && |ParseInvs(data, at, count).value| == count
    decreases count
  {
    hide LittleEndian, ReadAt;
    if count > 0 {
      AllInvsThere(data, at + 36, count - 1);
    }
  }

  lemma CutItem(data: Bytes, cut: nat, at: nat)
    requires at + 36 <= |data| && at + 4 <= cut <= |data|
    ensures data[..cut][at..at + 4] == data[at..at + 4]
    ensures ReadAt(data[..cut], at + 4, 32) == Take(ReadAt(data, at + 4, 32), cut - (at + 4))
  {
  }

  lemma ShortHashAhead(one: Inv, rest: seq<Inv>, n: nat)
    ensures WithShortHash([one], n) == [one.(hash := Take(one.hash, n))]
    ensures rest != [] ==> WithShortHash([one] + rest, n) == [one] + WithShortHash(rest, n)
  {
    assert rest != [] ==> AllButLast([one] + rest) == [one] + AllButLast(rest);
  }

  lemma WholeHash(data: Bytes, at: nat, n: nat)
    requires n >= 32
    ensures Take(ReadAt(data, at, 32), n) == ReadAt(data, at, 32)
  {
  }

  /** A list of items, all of which are in `data`, read from a part of it. */
  lemma {:induction false} CutInvs(data: Bytes, cut: nat, at: nat, count: nat)
    requires at <= cut <= |data| && count > 0 && at + 36 * count <= |data|
    ensures var whole, some := ParseInvs(data, at, count), ParseInvs(data[..cut], at, count);
      var last := at + 36 * count - 32;
      && whole.Parsed? && |whole.value| == count
      && if last <= cut then some.Parsed? && some.value == WithShortHash(whole.value, cut - last) else some == Raised
    decreases count
  {
    hide LittleEndian, ReadAt, ParseInvs, WithShortHash, Take;
    var part := data[..cut];
    AllInvsThere(data, at, count);
    if at + 4 > cut {
      NoInvs(part, at);
    } else {
      var one := Inv(LittleEndian(data[at..at + 4]), ReadAt(data, at + 4, 32));
      InvStep(data, at, count);
      InvStep(part, at, count);
      CutItem(data, cut, at);
      AllInvsThere(data, at + 36, count - 1);
      var rest := ParseInvs(data, at + 36, count - 1).value;
      if count == 1 {
        NoInvs(data, at + 36);
        NoInvs(part, Min(at + 36, cut));
        ShortHashAhead(one, [], cut - (at + 4));
        assert [one] + [] == [one];
      } else if at + 36 <= cut {
        CutInvs(data, cut, at + 36, count - 1);
        WholeHash(data, at + 4, cut - (at + 4));
        if at + 36 * count - 32 <= cut {
          ShortHashAhead(one, rest, cut - (at + 36 * count - 32));
        }
      } else {
        NoInvs(part, cut);
      }
    }
  }

  /**
   * An inv or getdata payload that is cut short is accepted exactly if only bytes of its last
   * hash are missing; that hash is then shorter than 32 bytes.
   */
  lemma CutInvAccepted(invs: seq<Inv>, cut: nat)
    requires invs != [] && |invs| <= MAX_UINT64 && forall i :: 0 <= i < |invs| ==> invs[i].Valid()
    requires cut < |InvPayload(invs)|
    ensures var payload := InvPayload(invs);
      && |payload| >= 36
      && if |payload| - 32 <= cut then
           && ParseInvPayload(payload[..cut]).Parsed?
           && ParseInvPayload(payload[..cut]).value == WithShortHash(invs, cut - (|payload| - 32))
         else ParseInvPayload(payload[..cut]) == Raised
  {
    hide PackVarint, UnpackVarint, EncodeInvs, ParseInvs;
    var payload, n := InvPayload(invs), |PackVarint(|invs|)|;
    InvPayloadRoundTrip(invs, []);
    assert payload + [] == payload;
    InvLayout(invs, 0);
    assert payload == [] + PackVarint(|invs|) + EncodeInvs(invs);
    ReadPacked(payload, [], |invs|, EncodeInvs(invs));
    CutVarint(payload, cut, 0);
    if n <= cut {
      CutInvs(payload, cut, n, |invs|);
    }
  }

  /** A getheaders payload that is cut short is accepted exactly if its version and count are there. */
  lemma CutLocatorAccepted(hashes: seq<Bytes>, stop: Bytes, cut: nat)
    requires |hashes| <= MAX_UINT64 && cut <= |LocatorPayload(|hashes|, hashes, stop)|
    ensures ParseLocator(LocatorPayload(|hashes|, hashes, stop)[..cut]).Parsed? <==> 4 + |PackVarint(|hashes|)| <= cut
  {
    hide PackVarint, UnpackVarint, PackLE, LittleEndian, ParseHashes, Concat;
    var payload, version := LocatorPayload(|hashes|, hashes, stop), PackLE(PROTOCOL_VERSION, 4);
    assert payload == version + PackVarint(|hashes|) + (Concat(hashes) + stop);
    ReadPacked(payload, version, |hashes|, Concat(hashes) + stop);
    CutVarint(payload, cut, 4);
  }

  // ----- layouts -----

  lemma {:induction false} ConcatLength(parts: seq<Bytes>, width: nat)
    requires forall j :: 0 <= j < |parts| ==> |parts[j]| == width
    ensures |Concat(parts)| == width * |parts|
    decreases |parts|
  {
    if parts != [] {
      ConcatLength(parts[1..], width);
      OneMore(width, |parts| - 1);
    }
  }

  lemma OneMore(width: nat, n: nat)
    ensures width * (n + 1) == width + width * n
  {
  }

  /** Where the parts of a printed list stand, if each of them is `width` bytes long. */
  lemma {:induction false} PartsAt(parts: seq<Bytes>, width: nat, i: nat)
    requires i < |parts| && forall j :: 0 <= j < |parts| ==> |parts[j]| == width
    ensures |Concat(parts)| == width * |parts| && width * i + width <= |Concat(parts)|
    ensures Concat(parts)[width * i..width * i + width] == parts[i]
    decreases |parts|
  {
    ConcatLength(parts, width);
    OneMore(width, |parts| - 1);
    if i > 0 {
      PartsAt(parts[1..], width, i - 1);
      OneMore(width, i - 1);
      SliceAt(parts[0], Concat(parts[1..]), [], width * (i - 1), width * (i - 1) + width);
      assert parts[0] + Concat(parts[1..]) + [] == Concat(parts);
    } else {
      assert Concat(parts)[..width] == parts[0];
    }
  }

  lemma SliceAt(before: Bytes, middle: Bytes, after: Bytes, i: nat, j: nat)
    requires i <= j <= |middle|
    ensures (before + middle + after)[|before| + i..|before| + j] == middle[i..j]
  {
  }

  function InvParts(invs: seq<Inv>): seq<Bytes> {
    seq(|invs|, i requires 0 <= i < |invs| => PackLE(invs[i].invType, 4) + invs[i].hash)
  }

  lemma {:induction false} InvsAreParts(invs: seq<Inv>)
    ensures EncodeInvs(invs) == Concat(InvParts(invs))
  {
    hide PackLE;
    if invs != [] {
      InvsAreParts(invs[1..]);
      assert InvParts(invs)[1..] == InvParts(invs[1..]);
    }
  }

  function HeaderParts(raws: seq<Bytes>): seq<Bytes> {
    seq(|raws|, i requires 0 <= i < |raws| => raws[i] + [0])
  }

  lemma {:induction false} HeadersAreParts(raws: seq<Bytes>)
    ensures EncodeHeaders(raws) == Concat(HeaderParts(raws))
  {
    assert PackVarint(0) == [0];
    if raws != [] {
      HeadersAreParts(raws[1..]);
      assert HeaderParts(raws)[1..] == HeaderParts(raws[1..]);
    }
  }

  /** "inv": after the count, 36 bytes each: the type, lowest byte first, and the hash. */
  lemma InvLayout(invs: seq<Inv>, i: nat)
    requires |invs| <= MAX_UINT64 && i < |invs| && forall j :: 0 <= j < |invs| ==> invs[j].Valid()
    ensures var payload, at := InvPayload(invs), |PackVarint(|invs|)| + 36 * i;
      && |payload| == |PackVarint(|invs|)| + 36 * |invs| && at + 36 <= |payload|
      && invs[i].invType == payload[at] + 0x100 * (payload[at + 1] as nat)
                            + 0x1_0000 * (payload[at + 2] as nat) + 0x100_0000 * (payload[at + 3] as nat)
      && payload[at + 4..at + 36] == invs[i].hash
  {
    hide PackLE, PackVarint, LittleEndian, EncodeInvs;
    var parts := InvParts(invs);
    InvsAreParts(invs);
    PartsAt(parts, 36, i);
    var payload, at := InvPayload(invs), |PackVarint(|invs|)| + 36 * i;
    SliceAt(PackVarint(|invs|), EncodeInvs(invs), [], 36 * i, 36 * i + 36);
    assert PackVarint(|invs|) + EncodeInvs(invs) + [] == payload;
    assert payload[at..at + 36] == parts[i];
    assert payload[at..at + 4] == parts[i][..4] == PackLE(invs[i].invType, 4);
    assert payload[at + 4..at + 36] == parts[i][4..];
    Widths();
    UnpackPackLE(invs[i].invType, 4);
    FourBytes(payload[at..at + 4]);
  }

  /** "headers": after the count, 81 bytes each: the raw header and a zero. */
  lemma HeadersLayout(raws: seq<Bytes>, i: nat)
    requires |raws| <= MAX_UINT64 && i < |raws| && forall j :: 0 <= j < |raws| ==> |raws[j]| == 80
    ensures var payload, at := HeadersPayload(raws), |PackVarint(|raws|)| + 81 * i;
      && |payload| == |PackVarint(|raws|)| + 81 * |raws| && at + 81 <= |payload|
      && payload[at..at + 80] == raws[i] && payload[at + 80] == 0
  {
    hide PackVarint, EncodeHeaders;
    var parts := HeaderParts(raws);
    HeadersAreParts(raws);
    PartsAt(parts, 81, i);
    var payload, at := HeadersPayload(raws), |PackVarint(|raws|)| + 81 * i;
    SliceAt(PackVarint(|raws|), EncodeHeaders(raws), [], 81 * i, 81 * i + 81);
    assert PackVarint(|raws|) + EncodeHeaders(raws) + [] == payload;
    assert payload[at..at + 81] == parts[i];
    assert payload[at..at + 80] == parts[i][..80] && payload[at + 80] == parts[i][80];
  }

  /** "getheaders": the version, the count, 32 bytes for each hash, and the stop. */
  lemma LocatorLayout(count: nat, hashes: seq<Bytes>, stop: Bytes, i: nat)
    requires count <= MAX_UINT64 && i < |hashes| && forall j :: 0 <= j < |hashes| ==> |hashes[j]| == 32
    ensures var payload, at := LocatorPayload(count, hashes, stop), 4 + |PackVarint(count)|;
      && |payload| == at + 32 * |hashes| + |stop|
      && 70016 == payload[0] + 0x100 * (payload[1] as nat)
                  + 0x1_0000 * (payload[2] as nat) + 0x100_0000 * (payload[3] as nat)
      && payload[4..at] == PackVarint(count)
      && payload[at + 32 * i..at + 32 * i + 32] == hashes[i]
      && payload[at + 32 * |hashes|..] == stop
  {
    hide PackLE, PackVarint, LittleEndian, Concat;
    PartsAt(hashes, 32, i);
    var payload, at := LocatorPayload(count, hashes, stop), 4 + |PackVarint(count)|;
    SliceAt(PackLE(PROTOCOL_VERSION, 4) + PackVarint(count), Concat(hashes), stop, 32 * i, 32 * i + 32);
    assert payload[..4] == PackLE(PROTOCOL_VERSION, 4);
    Widths();
    UnpackPackLE(PROTOCOL_VERSION, 4);
    FourBytes(payload[..4]);
  }

  // ----- over the wire -----

  /** "inv", "getdata" and "headers", padded to twelve bytes, are plain commands. */
  predicate PlainCommand(command: Bytes) {
    |command| == 12 && Ascii(command) && StripNul(command) != BLOCK && StripNul(command) != EXTMSG
  }

  /**
   * End to end: a list of inventory items that is printed, framed, sent and read by a
   * session arrives as one queued message whose payload parses to the same list.
   */
  lemma InvSurvivesTheWire(net: Net, command: Bytes, invs: seq<Inv>)
    requires ValidNet(net) && PlainCommand(command)
    requires |invs| <= MAX_UINT64 && |InvPayload(invs)| <= MAX_UINT32
    requires forall i :: 0 <= i < |invs| ==> invs[i].Valid()
    ensures var run := SessionRun(net, PayloadToMessage(net, Msg(command, InvPayload(invs))));
      && |run.events| == 1 && run.events[0].MessageQueued? && run.events[0].command == StripNul(command)
      && ParseInvPayload(run.events[0].payload) == Parsed(invs, |run.events[0].payload|)
  {
    hide InvPayload, ParseInvPayload, PayloadToMessage, StripNul, Ascii, PayloadRun, ReadHeaderFrom;
    PlainArrives(net, Msg(command, InvPayload(invs)));
    InvPayloadRoundTrip(invs, []);
    assert InvPayload(invs) + [] == InvPayload(invs);
  }

  lemma PlainArrives(net: Net, m: Msg)
    requires ValidNet(net) && m.Printable() && StripNul(m.command) != BLOCK
    ensures SessionRun(net, PayloadToMessage(net, m)).events
         == [Blocks.MessageQueued(StripNul(m.command), m.payload)]
  {
    hide PayloadToMessage, StripNul, Ascii, MessageRun;
    var sent := PayloadToMessage(net, m);
    assert PrintAll(net, [m]) + [] == sent + PrintAll(net, []) + [] == sent;
    assert m.payload[..|m.payload|] == m.payload;
    SessionStaysAligned(net, [m], []);
    assert DeliverAll(net, [m]) == Delivery(net, m).events;
    assert SessionRun(net, []).events == [] by { EmptySession(net); }
  }

  lemma EmptySession(net: Net)
    ensures SessionRun(net, []) == Blocks.Run([], 0, Blocks.ConnectionReset)
  {
  }
}
