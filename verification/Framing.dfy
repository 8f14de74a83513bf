/** Printed messages, and what the session makes of a stream of them. */
module Framing {
  import opened ByteStrings
  import opened Preprocessor
  import opened Wire
  import opened Blocks
  import opened Streaming
  import opened Session

  /** `command` is one of the twelve-byte constants, padded with NULs. */
  datatype Msg = Msg(command: Bytes, payload: Bytes) {
    predicate Printable() {
      |command| == 12 && Ascii(command) && StripNul(command) != EXTMSG && |payload| <= MAX_UINT32
    }
  }

  ghost predicate ValidNet(net: Net) {
    |net.magic| == 4 && forall data: Bytes :: |net.sha256(data)| == 32
  }

  /** `payload_to_message`. */
  function PayloadToMessage(net: Net, m: Msg): Bytes {
    net.magic + m.command + PackLE(|m.payload|, 4) + Checksum(net.sha256, m.payload) + m.payload
  }

  function PrintAll(net: Net, msgs: seq<Msg>): Bytes {
    if msgs == [] then [] else PayloadToMessage(net, msgs[0]) + PrintAll(net, msgs[1..])
  }

  function HeaderOf(net: Net, m: Msg): MessageHeader {
    MessageHeader(StripNul(m.command), |m.payload|, Checksum(net.sha256, m.payload))
  }

  /** What one message delivers when it stands alone. */
  ghost function Delivery(net: Net, m: Msg): Run {
    PayloadRun(net, HeaderOf(net, m), m.payload)
  }

  ghost function DeliverAll(net: Net, msgs: seq<Msg>): seq<Event> {
    if msgs == [] then [] else Delivery(net, msgs[0]).events + DeliverAll(net, msgs[1..])
  }

  // ----- one message -----

  /** A header with the given fields is read back, whatever follows. */
  lemma HeaderReadBack(net: Net, magic: Bytes, command: Bytes, length: nat, checksum: Bytes, rest: Bytes)
    requires |net.magic| == |magic| == 4 && |command| == 12 && |checksum| == 4 && length <= MAX_UINT32
    requires Ascii(command) && StripNul(command) != EXTMSG
    ensures ReadHeaderFrom(net, magic + command + PackLE(length, 4) + checksum + rest) ==
      if magic == net.magic then Header(MessageHeader(StripNul(command), length, checksum), 24)
      else NoHeader(Misbehaving, 24)
  {
    hide StripNul, Ascii, PackLE, LittleEndian;
    var bytes := magic + command + PackLE(length, 4) + checksum + rest;
    assert bytes[..4] == magic && bytes[4..16] == command;
    assert bytes[16..20] == PackLE(length, 4) && bytes[20..24] == checksum;
    Widths();
    UnpackPackLE(length, 4);
  }

  /** Bytes after a payload do not matter to it. */
  lemma PayloadAlone(net: Net, header: MessageHeader, payload: Bytes, rest: Bytes)
    requires header.length == |payload|
    ensures PayloadRun(net, header, payload + rest) == PayloadRun(net, header, payload)
  {
    hide SmallBlockRun, Finish, Front, Checksum;
    assert (payload + rest)[..|payload|] == payload == payload[..|payload|];
    assert Take(payload + rest, |payload|) == payload == Take(payload, |payload|);
  }

  lemma OneDelivery(net: Net, m: Msg, rest: Bytes)
    requires ValidNet(net) && m.Printable()
    ensures MessageRun(net, PayloadToMessage(net, m) + rest) == After([], 24, Delivery(net, m))
  {
    hide PayloadRun, StripNul, PackLE, Ascii, MessageRun;
    ChecksumLength(net, m.payload);
    CommandRun(net, m.command, m.payload, Checksum(net.sha256, m.payload), rest);
  }

  /** A delivered message consumes exactly its payload. */
  lemma DeliveryConsumes(net: Net, m: Msg)
    requires Delivery(net, m).outcome == Completed
    ensures Delivery(net, m).consumed == |m.payload|
  {
    hide BigBlockRun, SmallBlockRun;
    var h := HeaderOf(net, m);
    if h.length >= net.limit && h.command == BLOCK {
      BigBlockAgreesWithSmall(net.sha256, m.payload, net.limit, h.length, h.checksum);
    }
  }

  // ----- streams of messages -----

  /**
   * The session stays aligned: printed messages that each complete deliver their events
   * in order, 24 plus length bytes are consumed per message in all three branches, and
   * the session goes on with whatever follows.
   */
  lemma {:induction false} SessionStaysAligned(net: Net, msgs: seq<Msg>, rest: Bytes)
    requires ValidNet(net)
    requires forall i :: 0 <= i < |msgs| ==> msgs[i].Printable() && Delivery(net, msgs[i]).outcome == Completed
    ensures SessionRun(net, PrintAll(net, msgs) + rest)
         == After(DeliverAll(net, msgs), |PrintAll(net, msgs)|, SessionRun(net, rest))
  {
    hide Delivery, MessageRun, PackLE, Checksum, StripNul, Ascii;
    if msgs == [] {
      assert PrintAll(net, msgs) + rest == rest;
    } else {
      var m, more := msgs[0], PrintAll(net, msgs[1..]);
      var one := PayloadToMessage(net, m);
      var bytes := PrintAll(net, msgs) + rest;
      assert bytes == one + (more + rest);
      OneDelivery(net, m, more + rest);
      DeliveryConsumes(net, m);
      ChecksumLength(net, m.payload);
      assert Drop(bytes, |one|) == more + rest;
      SessionStaysAligned(net, msgs[1..], rest);
    }
  }

  lemma ChecksumLength(net: Net, payload: Bytes)
    requires ValidNet(net)
    ensures |Checksum(net.sha256, payload)| == 4
  {
  }

  /**
   * The first message that does not complete ends the session: only what it delivered
   * itself is added, and nothing after it is.
   */
  lemma SessionStopsAtFirstFailure(net: Net, msgs: seq<Msg>, bad: Bytes)
    requires ValidNet(net)
    requires forall i :: 0 <= i < |msgs| ==> msgs[i].Printable() && Delivery(net, msgs[i]).outcome == Completed
    requires MessageRun(net, bad).outcome != Completed
    ensures SessionRun(net, PrintAll(net, msgs) + bad)
         == After(DeliverAll(net, msgs), |PrintAll(net, msgs)|, MessageRun(net, bad))
  {
    hide MessageRun, Delivery;
    SessionStaysAligned(net, msgs, bad);
  }

  /** A command without NULs around it, which is no extended message. */
  predicate PlainName(name: Bytes) {
    |name| <= 12 && Ascii(name) && name != EXTMSG && (name != [] ==> name[0] != 0 && Last(name) != 0)
  }

  lemma {:induction false} StripsPadding(name: Bytes, n: nat)
    requires name != [] ==> name[0] != 0 && Last(name) != 0
    ensures StripNul(name + seq(n, _ => 0)) == name
  {
    var padded := name + seq(n, _ => 0);
    if n == 0 {
      assert padded == name;
    } else {
      if name == [] {
        assert padded[1..] == name + seq(n - 1, _ => 0);
      } else {
        assert AllButLast(padded) == name + seq(n - 1, _ => 0);
      }
      StripsPadding(name, n - 1);
    }
  }

  /**
   * How a message that is no big block ends, written out on its bytes: its checksum must be
   * the first four bytes of the double hash of its payload; a message that is no block is
   * then queued, and a block is reported, or crashes the session if it does not scan to its
   * end. All of the message is consumed in any case.
   */
  lemma SmallMessageEndsExactly(net: Net, name: Bytes, payload: Bytes, checksum: Bytes, rest: Bytes)
    requires ValidNet(net) && PlainName(name) && |checksum| == 4 && |payload| <= MAX_UINT32
    requires name != BLOCK || |payload| < net.limit
    ensures var padded := name + seq(12 - |name|, _ => 0);
      var run := MessageRun(net, net.magic + padded + PackLE(|payload|, 4) + checksum + payload + rest);
      && run.consumed == 24 + |payload|
      && if checksum != net.sha256(net.sha256(payload))[..4] then run.events == [] && run.outcome == Misbehaving
         else if name != BLOCK then run.events == [MessageQueued(name, payload)] && run.outcome == Completed
         else if ScansToEnd(payload) then
           && run.outcome == Completed
           && run.events == [BlockDone(Small, net.sha256(net.sha256(payload[..80])),
                                       AllButLast(Bounds(payload, Front(payload).value)), |payload|, Some(payload))]
         else run.events == [] && run.outcome == Crashed
  {
    hide StripNul, PackLE, Ascii, Bounds, BigBlockRun, MessageRun, UnpackVarint;
    PrintedMessageRun(net, name, payload, checksum, rest);
    assert payload[..|payload|] == payload;
    FourBytesOf(net, payload);
  }

  lemma FourBytesOf(net: Net, payload: Bytes)
    requires ValidNet(net)
    ensures Checksum(net.sha256, payload) == net.sha256(net.sha256(payload))[..4]
  {
  }

  lemma PrintedMessageRun(net: Net, name: Bytes, payload: Bytes, checksum: Bytes, rest: Bytes)
    requires |net.magic| == 4 && PlainName(name) && |checksum| == 4 && |payload| <= MAX_UINT32
    ensures MessageRun(net, net.magic + (name + seq(12 - |name|, _ => 0)) + PackLE(|payload|, 4) + checksum
                            + payload + rest)
         == After([], 24, PayloadRun(net, MessageHeader(name, |payload|, checksum), payload))
  {
    hide StripNul, PackLE, Ascii, PayloadRun, MessageRun;
    StripsPadding(name, 12 - |name|);
    PaddedAscii(name, 12 - |name|);
    CommandRun(net, name + seq(12 - |name|, _ => 0), payload, checksum, rest);
  }

  lemma CommandRun(net: Net, command: Bytes, payload: Bytes, checksum: Bytes, rest: Bytes)
    requires |net.magic| == 4 && |command| == 12 && |checksum| == 4 && |payload| <= MAX_UINT32
    requires Ascii(command) && StripNul(command) != EXTMSG
    ensures MessageRun(net, net.magic + command + PackLE(|payload|, 4) + checksum + payload + rest)
         == After([], 24, PayloadRun(net, MessageHeader(StripNul(command), |payload|, checksum), payload))
  {
    hide StripNul, ReadHeaderFrom, PackLE, Ascii, PayloadRun;
    var front := net.magic + command + PackLE(|payload|, 4) + checksum;
    HeaderReadBack(net, net.magic, command, |payload|, checksum, payload + rest);
    assert front + payload + rest == front + (payload + rest);
    assert Drop(front + (payload + rest), 24) == payload + rest;
    PayloadAlone(net, MessageHeader(StripNul(command), |payload|, checksum), payload, rest);
  }

  lemma PaddedAscii(name: Bytes, n: nat)
    requires Ascii(name)
    ensures Ascii(name + seq(n, _ => 0))
  {
  }

  /**
   * What is refused on the header alone: a foreign magic and a command that is no ASCII are
   * misbehaviour, an extended header without its fixed length and checksum crashes the
   * session, and a header that does not arrive whole resets it.
   */
  lemma RefusedHeaders(net: Net, magic: Bytes, command: Bytes, length: Bytes, checksum: Bytes, rest: Bytes)
    requires |net.magic| == |magic| == |length| == |checksum| == 4 && |command| == 12
    ensures var bytes := magic + command + length + checksum + rest;
      && (forall n :: 0 <= n < 24 ==> MessageRun(net, bytes[..n]) == Run([], n, ConnectionReset))
      && (magic != net.magic || !Ascii(command) ==> MessageRun(net, bytes) == Run([], 24, Misbehaving))
      && (magic == net.magic && command == EXTMSG + seq(6, _ => 0) ==>
            if |rest| < 20 then MessageRun(net, bytes) == Run([], 24 + |rest|, ConnectionReset)
            else if length != [255, 255, 255, 255] || checksum != [0, 0, 0, 0] then
              MessageRun(net, bytes) == Run([], 44, Crashed)
            else !Ascii(rest[..12]) ==> MessageRun(net, bytes) == Run([], 44, Misbehaving))
  {
    hide StripNul, LittleEndian, PayloadRun;
    var bytes := magic + command + length + checksum + rest;
    HeaderFields(magic, command, length, checksum, rest);
    if command == EXTMSG + seq(6, _ => 0) {
      StripsPadding(EXTMSG, 6);
      LargestLength(length);
      assert Ascii(command);
    }
  }

  lemma HeaderFields(magic: Bytes, command: Bytes, length: Bytes, checksum: Bytes, rest: Bytes)
    requires |magic| == |length| == |checksum| == 4 && |command| == 12
    ensures var bytes := magic + command + length + checksum + rest;
      && bytes[..4] == magic && bytes[4..16] == command && bytes[16..20] == length && bytes[20..24] == checksum
      && (|rest| >= 12 ==> bytes[24..36] == rest[..12])
  {
  }

  lemma LargestLength(length: Bytes)
    requires |length| == 4
    ensures LittleEndian(length) == MAX_UINT32 <==> length == [255, 255, 255, 255]
  {
    hide LittleEndian;
    FourBytes(length);
  }

  /** A wrong magic, or a small payload with a wrong checksum, delivers nothing and is misbehaviour. */
  lemma BadMessageDeliversNothing(net: Net, magic: Bytes, m: Msg, checksum: Bytes, rest: Bytes)
    requires ValidNet(net) && m.Printable() && |magic| == |checksum| == 4
    requires magic != net.magic
          || (checksum != Take(net.sha256(net.sha256(m.payload)), 4)
              && (|m.payload| < net.limit || StripNul(m.command) != BLOCK))
    ensures var run := MessageRun(net, magic + m.command + PackLE(|m.payload|, 4) + checksum + m.payload + rest);
            run.events == [] && run.outcome == Misbehaving
  {
    hide StripNul, ReadHeaderFrom, PackLE, Ascii, BigBlockRun, SmallBlockRun;
    var bytes := magic + m.command + PackLE(|m.payload|, 4) + checksum + m.payload + rest;
    assert bytes == magic + m.command + PackLE(|m.payload|, 4) + checksum + (m.payload + rest);
    HeaderReadBack(net, magic, m.command, |m.payload|, checksum, m.payload + rest);
    assert Drop(bytes, 24) == m.payload + rest;
    assert (m.payload + rest)[..|m.payload|] == m.payload;
  }

  /** A big block with a wrong checksum may have handed on chunks, but `on_block` never fires for it. */
  lemma BadBigBlockIsNeverDone(sha256: Hash, bytes: Bytes, limit: nat, size: nat, checksum: Bytes)
    requires Take(sha256(sha256(Take(bytes, size))), 4) != checksum
    ensures var run := BigBlockRun(sha256, bytes, limit, size, checksum);
      run.outcome != Completed && forall i :: 0 <= i < |run.events| ==> run.events[i].BlockChunk?
  {
    hide Bounds, UnpackVarint, Job.Chunks, Splits;
    BigBlockCompletesExactly(sha256, bytes, limit, size, checksum);
    if size <= |bytes| {
      assert bytes[..size] == Take(bytes, size);
    }
    OnlyChunks(sha256, bytes, limit, size, checksum);
  }

  lemma OnlyChunks(sha256: Hash, bytes: Bytes, limit: nat, size: nat, checksum: Bytes)
    ensures var run := BigBlockRun(sha256, bytes, limit, size, checksum);
      forall i :: 0 <= i < |run.events| - (if run.outcome == Completed then 1 else 0) ==>
        && limit > 0 && run.events[i].BlockChunk? && run.events[i].num == i + 1
        && i + 1 <= run.events[i].total == (size + limit - 1) / limit
        && run.events[i].hash == sha256(sha256(Take(Take(bytes, size), 80)))
  {
    hide Bounds, Checksum, UnpackVarint, Job.Chunks, Job.ReadTo, Job.Stalls, Job.Slice, Job.Offsets;
    var block, first := Take(bytes, size), Min(limit, size);
    if limit > 0 && size > 0 && |block| >= first && Front(block[..first]).Some? {
      var job := Job(block, Front(block[..first]).value, limit, size, DoubleSha256(sha256, block[..80]));
      assert job.ReadTo(0) == 0 by { ReadToClosed(job, 0); }
      assert block[..80] == Take(block, 80);
      forall i | 0 <= i < |job.Chunks(0).events|
        ensures var e := job.Chunks(0).events[i];
          e.BlockChunk? && e.num == i + 1 <= e.total == job.NumChunks() && e.hash == job.hash
      {
        ChunksAreNumbered(job, 0, i);
        ChunkNeedsRead(job, i);
      }
    }
  }

  lemma ChunkNeedsRead(job: Job, i: nat)
    requires job.Valid() && job.ReadTo(0) == 0 && i < |job.Chunks(0).events|
    ensures i < job.NumChunks()
  {
    hide Bounds, Job.ReadTo, Job.Stalls, Job.Chunk;
    ChunksFrom(job, 0, i);
    StepCount(job, i);
  }

  // ----- connections that end early -----

  /** The boundaries of a block that is cut short are those of the whole one up to the cut. */
  lemma CutShort(block: Bytes, n: nat, front: nat, limit: nat)
    requires front <= n <= |block|
    ensures EveryStepEndsATx(block, front, limit) ==> EveryReadEndsATx(block[..n], front, limit, |block|)
  {
    hide Bounds, UpTo, Shift;
    var all, some := Bounds(block, front), Bounds(block[..n], front);
    assert block[..n] == block[0..n];
    BoundsWindow(block, 0, n, front);
    BoundsAdvance(block, front);
    assert some == UpTo(all, n) by { Unshifted(some); }
    if EveryStepEndsATx(block, front, limit) {
      forall k | 1 <= k && k * limit < |block| && (n == |block| || (k + 1) * limit <= n)
        ensures StepEndsATx(block[..n], front, limit, k)
      {
        assert StepEndsATx(block, front, limit, k);
        var i :| 0 <= i < |all| && k * limit < all[i] <= (k + 1) * limit;
        assert all[i] <= Last(all) <= |block|;
        assert all[i] <= n;
        assert i < |some| && some[i] == all[i];
      }
    }
  }

  lemma Unshifted(s: seq<nat>)
    ensures Shift(s, 0) == s
  {
  }

  /** A block that would be accepted and does not arrive whole resets the session, whatever has been handed on. */
  lemma BigBlockCutShort(sha256: Hash, bytes: Bytes, limit: nat, size: nat, checksum: Bytes, n: nat)
    requires BigBlockRun(sha256, bytes, limit, size, checksum).outcome == Completed && n < size
    ensures var run := BigBlockRun(sha256, Take(bytes, n), limit, size, checksum);
      run.outcome == ConnectionReset && forall i :: 0 <= i < |run.events| ==> run.events[i].BlockChunk?
  {
    hide Bounds, UnpackVarint, EveryStepEndsATx, EveryReadEndsATx, BigBlockRun;
    BigBlockCompletesExactly(sha256, bytes, limit, size, checksum);
    BigBlockEndsExactly(sha256, Take(bytes, n), limit, size, checksum);
    OnlyChunks(sha256, Take(bytes, n), limit, size, checksum);
    var block, part := bytes[..size], Take(Take(bytes, n), size);
    assert part == block[..n];
    FrontOfFirst(block, n);
    if n >= Min(limit, size) {
      CutShort(block, n, Front(block).value, limit);
    }
  }

  /** One message that is cut off anywhere. */
  lemma MessageCutShort(net: Net, m: Msg, cut: nat)
    requires ValidNet(net) && m.Printable() && Delivery(net, m).outcome == Completed
    requires cut < |PayloadToMessage(net, m)|
    ensures var run := MessageRun(net, PayloadToMessage(net, m)[..cut]);
      run.outcome == ConnectionReset && forall i :: 0 <= i < |run.events| ==> run.events[i].BlockChunk?
  {
    hide BigBlockRun, SmallBlockRun, StripNul, PackLE, Ascii, Checksum;
    ChecksumLength(net, m.payload);
    var checksum := Checksum(net.sha256, m.payload);
    if cut >= 24 {
      hide ReadHeaderFrom;
      var part := m.payload[..cut - 24];
      var bytes := net.magic + m.command + PackLE(|m.payload|, 4) + checksum + part;
      assert PayloadToMessage(net, m)[..cut] == bytes;
      HeaderReadBack(net, net.magic, m.command, |m.payload|, checksum, part);
      assert Drop(bytes, 24) == part == Take(m.payload, cut - 24);
      if |m.payload| >= net.limit && StripNul(m.command) == BLOCK {
        BigBlockCutShort(net.sha256, m.payload, net.limit, |m.payload|, checksum, cut - 24);
      }
    }
  }

  /**
   * A connection that ends anywhere in a stream of printed messages: those before the cut
   * are all delivered, of the one it cuts nothing but chunks, and the session is reset.
   */
  lemma ConnectionLostAnywhere(net: Net, msgs: seq<Msg>, m: Msg, cut: nat)
    requires ValidNet(net) && m.Printable() && Delivery(net, m).outcome == Completed
    requires forall i :: 0 <= i < |msgs| ==> msgs[i].Printable() && Delivery(net, msgs[i]).outcome == Completed
    requires cut < |PayloadToMessage(net, m)|
    ensures var run := SessionRun(net, PrintAll(net, msgs) + PayloadToMessage(net, m)[..cut]);
      var n := |DeliverAll(net, msgs)|;
      && run.outcome == ConnectionReset && n <= |run.events| && run.events[..n] == DeliverAll(net, msgs)
      && forall i :: n <= i < |run.events| ==> run.events[i].BlockChunk?
  {
    hide MessageRun, Delivery, PayloadToMessage;
    MessageCutShort(net, m, cut);
    SessionStopsAtFirstFailure(net, msgs, PayloadToMessage(net, m)[..cut]);
  }

  // ----- every delivery is authentic -----

  /**
   * `e` was made from the message that `left` starts with. Its checksum is right, unless `e`
   * is a chunk of a block, which is handed on before the checksum can be known.
   */
  ghost predicate MadeFrom(net: Net, left: Bytes, e: Event) {
    match ReadHeaderFrom(net, left)
    case NoHeader(_, _) => false
    case Header(header, consumed) =>
      var payload := Take(Drop(left, consumed), header.length);
      && (!e.BlockChunk? ==>
            |payload| == header.length && Take(net.sha256(net.sha256(payload)), 4) == header.checksum)
      && match e
         case MessageQueued(command, data) => header.command == command != BLOCK && data == payload
         case BlockDone(kind, hash, _, size, data) =>
           && header.command == BLOCK && size == header.length
           && hash == net.sha256(net.sha256(Take(payload, 80)))
           && (kind == Small <==> size < net.limit) && (data == if kind == Small then Some(payload) else None)
         case BlockChunk(num, total, hash, _, _) =>
           && header.command == BLOCK && 0 < net.limit <= header.length
           && hash == net.sha256(net.sha256(Take(payload, 80)))
           && 1 <= num <= total == (header.length + net.limit - 1) / net.limit
  }

  /** `e` was made from a message whose header stands at `at` and whose checksum is right. */
  ghost predicate Authentic(net: Net, bytes: Bytes, at: nat, e: Event) {
    MadeFrom(net, Drop(bytes, at), e)
  }

  lemma MessageIsAuthentic(net: Net, bytes: Bytes, i: nat)
    requires i < |MessageRun(net, bytes).events|
    ensures Authentic(net, bytes, 0, MessageRun(net, bytes).events[i])
  {
    hide ReadHeaderFrom, BigBlockRun, Splits, ScansToEnd;
    assert Drop(bytes, 0) == bytes;
    var read := ReadHeaderFrom(net, bytes);
    var h, left := read.header, Drop(bytes, read.consumed);
    if h.length >= net.limit && h.command == BLOCK {
      BigBlockEvent(net.sha256, left, net.limit, h.length, h.checksum, i);
    } else {
      SmallBlockHash(net.sha256, left[..h.length]);
    }
  }

  lemma BigBlockEvent(sha256: Hash, bytes: Bytes, limit: nat, size: nat, checksum: Bytes, i: nat)
    requires i < |BigBlockRun(sha256, bytes, limit, size, checksum).events|
    ensures var e, block := BigBlockRun(sha256, bytes, limit, size, checksum).events[i], Take(bytes, size);
      match e
      case BlockChunk(num, total, hash, _, _) =>
        0 < limit && 1 <= num <= total == (size + limit - 1) / limit && hash == sha256(sha256(Take(block, 80)))
      case BlockDone(kind, hash, _, size', data) =>
        && |block| == size == size' && Take(sha256(sha256(block)), 4) == checksum
        && kind == Big && data == None && hash == sha256(sha256(Take(block, 80)))
      case MessageQueued(_, _) => false
  {
    hide BigBlockRun, Splits, ScansToEnd, SmallBlockRun;
    var run := BigBlockRun(sha256, bytes, limit, size, checksum);
    OnlyChunks(sha256, bytes, limit, size, checksum);
    if run.outcome == Completed && i == |run.events| - 1 {
      BigBlockAgreesWithSmall(sha256, bytes, limit, size, checksum);
      BigBlockCompletesExactly(sha256, bytes, limit, size, checksum);
      assert bytes[..size] == Take(bytes, size);
      SmallBlockHash(sha256, bytes[..size]);
    }
  }

  lemma SmallBlockHash(sha256: Hash, block: Bytes)
    ensures var run := SmallBlockRun(sha256, block, |block|);
      if run.outcome == Completed
      then |run.events| == 1 && run.events[0].BlockDone? && run.events[0].kind == Small
        && run.events[0].size == |block| && run.events[0].data == Some(block)
        && run.events[0].hash == sha256(sha256(Take(block, 80)))
      else run.events == []
  {
    hide Bounds, UnpackVarint;
  }

  /** The session got to offset `at`, with a message that starts there, after the events `done`. */
  ghost predicate Reached(net: Net, bytes: Bytes, done: seq<Event>, at: nat) {
    SessionRun(net, bytes) == After(done, at, SessionRun(net, Drop(bytes, at)))
  }

  /**
   * On every byte stream, however malformed: whatever the session queues or hands on, and
   * every block it reports as done, comes from a message with the right magic, and, but for
   * the chunks of a block, with the right checksum, which starts at a boundary the session
   * reached.
   */
  lemma {:induction false} EveryDeliveryIsAuthentic(net: Net, bytes: Bytes, i: nat) returns (at: nat, done: seq<Event>)
    requires i < |SessionRun(net, bytes).events|
    ensures Authentic(net, bytes, at, SessionRun(net, bytes).events[i])
    ensures Reached(net, bytes, done, at) && |done| <= i < |done| + |MessageRun(net, Drop(bytes, at)).events|
    decreases |bytes|
  {
    hide MessageRun, Authentic, Reached, SessionRun;
    var run := MessageRun(net, bytes);
    SessionUnfolds(net, bytes);
    if i < |run.events| {
      MessageIsAuthentic(net, bytes, i);
      at, done := 0, [];
      StartIsReached(net, bytes);
    } else {
      var left := Drop(bytes, run.consumed);
      ProgressMade(net, bytes);
      var e := SessionRun(net, left).events[i - |run.events|];
      var later, before := EveryDeliveryIsAuthentic(net, left, i - |run.events|);
      at, done := run.consumed + later, run.events + before;
      Relocate(net, bytes, run.consumed, later, e);
      ReachedLater(net, bytes, before, later);
      DropDrop(bytes, run.consumed, later);
    }
  }

  lemma SessionUnfolds(net: Net, bytes: Bytes)
    ensures var run := MessageRun(net, bytes);
      SessionRun(net, bytes) ==
      if run.outcome != Completed then run
      else After(run.events, run.consumed, SessionRun(net, Drop(bytes, run.consumed)))
  {
    hide MessageRun;
  }

  lemma StartIsReached(net: Net, bytes: Bytes)
    ensures Reached(net, bytes, [], 0) && Drop(bytes, 0) == bytes
  {
    hide SessionRun;
  }

  lemma ReachedLater(net: Net, bytes: Bytes, done: seq<Event>, at: nat)
    requires MessageRun(net, bytes).outcome == Completed
    requires Reached(net, Drop(bytes, MessageRun(net, bytes).consumed), done, at)
    ensures Reached(net, bytes, MessageRun(net, bytes).events + done, MessageRun(net, bytes).consumed + at)
  {
    hide MessageRun, SessionRun;
    SessionUnfolds(net, bytes);
    DropDrop(bytes, MessageRun(net, bytes).consumed, at);
  }

  lemma Relocate(net: Net, bytes: Bytes, m: nat, n: nat, e: Event)
    requires Authentic(net, Drop(bytes, m), n, e)
    ensures Authentic(net, bytes, m + n, e)
  {
    hide MadeFrom;
    DropDrop(bytes, m, n);
  }

  lemma ProgressMade(net: Net, bytes: Bytes)
    requires MessageRun(net, bytes).outcome == Completed
    ensures |Drop(bytes, MessageRun(net, bytes).consumed)| < |bytes|
  {
    hide PayloadRun;
  }

  // ----- extended messages -----

  /** What the session makes of an extended message: its payload, compared with a zero checksum. */
  lemma ExtendedMessageRun(net: Net, command: Bytes, payload: Bytes, rest: Bytes)
    requires |net.magic| == 4 && |command| == 12 && Ascii(command) && |payload| < 0x1_0000_0000_0000_0000
    ensures MessageRun(net, ExtendedHeader(net, command, |payload|) + (payload + rest))
         == After([], 44, PayloadRun(net, MessageHeader(StripNul(command), |payload|, [0, 0, 0, 0]), payload))
  {
    hide ReadHeaderFrom, ExtendedHeader, StripNul, Ascii, PayloadRun;
    ExtendedHeaderReadBack(net, command, |payload|, payload + rest);
    assert Drop(ExtendedHeader(net, command, |payload|) + (payload + rest), 44) == payload + rest;
    PayloadAlone(net, MessageHeader(StripNul(command), |payload|, [0, 0, 0, 0]), payload, rest);
  }

  /**
   * An extended message carries a zero checksum, which is then compared with the hash of
   * its payload: the session accepts it exactly when that hash starts with four zero
   * bytes, and, for a block, when the block handlers would accept it with the right
   * checksum. Otherwise it disconnects from a peer that may have done nothing wrong.
   */
  lemma ExtendedMessageNeedsZeroHash(net: Net, command: Bytes, payload: Bytes, rest: Bytes)
    requires ValidNet(net) && |command| == 12 && Ascii(command)
    requires |payload| < 0x1_0000_0000_0000_0000
    ensures var run := MessageRun(net, ExtendedHeader(net, command, |payload|) + (payload + rest));
      var name, checksum, zero := StripNul(command), Take(net.sha256(net.sha256(payload)), 4), [0, 0, 0, 0];
      && (run.outcome == Completed <==>
            checksum == zero &&
            (name == BLOCK ==>
               if |payload| < net.limit then ScansToEnd(payload)
               else Splits(payload, net.limit)))
      && (run.outcome == Completed ==> run.consumed == 44 + |payload|)
      && (checksum == zero && name != BLOCK ==> run.events == [MessageQueued(name, payload)])
      && (checksum != zero ==> forall i :: 0 <= i < |run.events| ==> run.events[i].BlockChunk?)
      && (checksum != zero && (name != BLOCK || |payload| < net.limit) ==>
            run.events == [] && run.outcome == Misbehaving)
  {
    hide BigBlockRun, ExtendedHeader, StripNul, Ascii, MessageRun, Splits, ScansToEnd;
    ExtendedMessageRun(net, command, payload, rest);
    assert payload[..|payload|] == payload == Take(payload, |payload|);
    if StripNul(command) == BLOCK && |payload| >= net.limit {
      var zero: Bytes := [0, 0, 0, 0];
      BigBlockCompletesExactly(net.sha256, payload, net.limit, |payload|, zero);
      if Take(net.sha256(net.sha256(payload)), 4) != zero {
        BadBigBlockIsNeverDone(net.sha256, payload, net.limit, |payload|, zero);
      }
      if BigBlockRun(net.sha256, payload, net.limit, |payload|, zero).outcome == Completed {
        BigBlockAgreesWithSmall(net.sha256, payload, net.limit, |payload|, zero);
      }
    }
  }

  function ExtendedHeader(net: Net, command: Bytes, length: nat): (bytes: Bytes)
    requires |net.magic| == 4 && |command| == 12
    ensures |bytes| == 44
  {
    net.magic + (EXTMSG + [0, 0, 0, 0, 0, 0]) + PackLE(MAX_UINT32, 4) + [0, 0, 0, 0] + command + PackLE(length, 8)
  }

  lemma ExtendedHeaderReadBack(net: Net, command: Bytes, length: nat, rest: Bytes)
    requires |net.magic| == 4 && |command| == 12 && Ascii(command) && length < 0x1_0000_0000_0000_0000
    ensures ReadHeaderFrom(net, ExtendedHeader(net, command, length) + rest)
         == Header(MessageHeader(StripNul(command), length, [0, 0, 0, 0]), 44)
  {
    hide PackLE, LittleEndian, StripNul, ExtendedHeader;
    ExtendedFields(net, command, length, rest);
    Widths();
    UnpackPackLE(MAX_UINT32, 4);
    UnpackPackLE(length, 8);
    assert EXTMSG + [0, 0, 0, 0, 0, 0] == EXTMSG + seq(6, _ => 0);
    StripsPadding(EXTMSG, 6);
    assert Ascii(EXTMSG + [0, 0, 0, 0, 0, 0]);
  }

  lemma ExtendedFields(net: Net, command: Bytes, length: nat, rest: Bytes)
    requires |net.magic| == 4 && |command| == 12
    ensures var bytes := ExtendedHeader(net, command, length) + rest;
      && bytes[..4] == net.magic && bytes[4..16] == EXTMSG + [0, 0, 0, 0, 0, 0]
      && bytes[16..20] == PackLE(MAX_UINT32, 4) && bytes[20..24] == [0, 0, 0, 0]
      && bytes[24..36] == command && bytes[36..44] == PackLE(length, 8)
  {
    hide PackLE;
  }

  // ----- the events a caller sees -----

  /** A message that is no block, or a well-formed block. */
  datatype Sent = Plain(message: Msg) | BlockSent(block: Block) {
    predicate Valid(limit: nat) {
      match this
      case Plain(m) => m.Printable() && StripNul(m.command) != BLOCK
      case BlockSent(b) =>
        && b.Valid() && |b.Encode()| <= MAX_UINT32 && b.Front() <= limit
        && forall i :: 0 <= i < |b.txs| ==> |b.txs[i].Encode()| <= limit
    }
    function AsMsg(limit: nat): Msg
      requires Valid(limit)
    {
      match this
      case Plain(m) => m
      case BlockSent(b) => Msg(BLOCK + [0, 0, 0, 0, 0, 0, 0], b.Encode())
    }
    /** The handler call or queued message that reports it. */
    function Report(net: Net): Event
      requires Valid(net.limit)
    {
      match this
      case Plain(m) => MessageQueued(StripNul(m.command), m.payload)
      case BlockSent(b) =>
        var raw := b.Encode();
        BlockDone(if |raw| < net.limit then Small else Big, net.sha256(net.sha256(b.header)),
                  AllButLast(b.Offsets()), |raw|, if |raw| < net.limit then Some(raw) else None)
    }
  }

  function Reports(events: seq<Event>): seq<Event> {
    if events == [] then []
    else (if events[0].BlockChunk? then [] else [events[0]]) + Reports(events[1..])
  }

  /** A message of either sort completes, and its report is its only event that is no chunk. */
  lemma SentIsReported(net: Net, sent: Sent)
    requires ValidNet(net) && sent.Valid(net.limit)
    ensures sent.AsMsg(net.limit).Printable()
    ensures Delivery(net, sent.AsMsg(net.limit)).outcome == Completed
    ensures Reports(Delivery(net, sent.AsMsg(net.limit)).events) == [sent.Report(net)]
  {
    hide Bounds, BigBlockRun, SmallBlockRun, Block.Encode, Block.Offsets, Tx.Valid, Tx.Encode, UnpackVarint;
    var m := sent.AsMsg(net.limit);
    if sent.BlockSent? {
      var b, raw := sent.block, sent.block.Encode();
      assert m.command == BLOCK + seq(7, _ => 0);
      StripsPadding(BLOCK, 7);
      WellFormedBlockStreams(net.sha256, b, net.limit, []);
      assert raw + [] == raw && raw[..|raw|] == raw;
      BigBlockAgreesWithSmall(net.sha256, raw, net.limit, |raw|, Checksum(net.sha256, raw));
      var events := Delivery(net, m).events;
      if |raw| < net.limit {
        assert events == [sent.Report(net)];
        OneReport([], sent.Report(net));
      } else {
        assert events == AllButLast(events) + [sent.Report(net)];
        OneReport(AllButLast(events), sent.Report(net));
      }
    } else {
      assert m.payload[..|m.payload|] == m.payload;
      OneReport([], sent.Report(net));
    }
  }

  lemma {:induction false} OneReport(chunks: seq<Event>, e: Event)
    requires !e.BlockChunk? && forall i :: 0 <= i < |chunks| ==> chunks[i].BlockChunk?
    ensures Reports(chunks + [e]) == [e]
  {
    if chunks == [] {
      assert Reports([e]) == [e] + Reports([e][1..]);
    } else {
      OneReport(chunks[1..], e);
      assert (chunks + [e])[1..] == chunks[1..] + [e];
    }
  }

  lemma {:induction false} ReportsAppend(a: seq<Event>, b: seq<Event>)
    ensures Reports(a + b) == Reports(a) + Reports(b)
  {
    if a == [] {
      assert a + b == b;
    } else {
      ReportsAppend(a[1..], b);
      assert (a + b)[1..] == a[1..] + b && (a + b)[0] == a[0];
      var first := if a[0].BlockChunk? then [] else [a[0]];
      assert first + (Reports(a[1..]) + Reports(b)) == (first + Reports(a[1..])) + Reports(b);
    }
  }

  function ReportAll(net: Net, sent: seq<Sent>): seq<Event>
    requires forall i :: 0 <= i < |sent| ==> sent[i].Valid(net.limit)
  {
    if sent == [] then [] else [sent[0].Report(net)] + ReportAll(net, sent[1..])
  }

  function Messages(limit: nat, sent: seq<Sent>): seq<Msg>
    requires forall i :: 0 <= i < |sent| ==> sent[i].Valid(limit)
  {
    if sent == [] then [] else [sent[0].AsMsg(limit)] + Messages(limit, sent[1..])
  }

  lemma {:induction false} AllAreReported(net: Net, sent: seq<Sent>)
    requires ValidNet(net) && forall i :: 0 <= i < |sent| ==> sent[i].Valid(net.limit)
    ensures var msgs := Messages(net.limit, sent);
      && (forall i :: 0 <= i < |msgs| ==> msgs[i].Printable() && Delivery(net, msgs[i]).outcome == Completed)
      && Reports(DeliverAll(net, msgs)) == ReportAll(net, sent)
  {
    hide Delivery, Msg.Printable, Sent.AsMsg, Sent.Report;
    if sent != [] {
      SentIsReported(net, sent[0]);
      AllAreReported(net, sent[1..]);
      var msgs := Messages(net.limit, sent);
      assert msgs[1..] == Messages(net.limit, sent[1..]);
      ReportsAppend(Delivery(net, msgs[0]).events, DeliverAll(net, msgs[1..]));
    }
  }

  /**
   * Session framing: for every sequence of messages and well-formed blocks printed by
   * `payload_to_message`, of any mix of sizes, the session reports the same sequence in
   * order and ends, with the connection, exactly at the end of the stream.
   */
  lemma SessionReportsWhatWasSent(net: Net, sent: seq<Sent>)
    requires ValidNet(net) && forall i :: 0 <= i < |sent| ==> sent[i].Valid(net.limit)
    ensures var bytes := PrintAll(net, Messages(net.limit, sent));
      var run := SessionRun(net, bytes);
      Reports(run.events) == ReportAll(net, sent) && run.consumed == |bytes| && run.outcome == ConnectionReset
  {
    hide Delivery, PayloadToMessage, Sent.AsMsg, Sent.Report, PayloadRun, Sent.Valid;
    AllAreReported(net, sent);
    var msgs := Messages(net.limit, sent);
    SessionStaysAligned(net, msgs, []);
    assert PrintAll(net, msgs) + [] == PrintAll(net, msgs);
    assert SessionRun(net, []) == Run([], 0, ConnectionReset);
    assert DeliverAll(net, msgs) + [] == DeliverAll(net, msgs);
  }
}
