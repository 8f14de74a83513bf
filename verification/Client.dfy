/** The client: a session loop over a reader, with the two block handlers. */
module Client {
  import opened ByteStrings
  import opened Preprocessor
  import opened Blocks
  import opened Streaming
  import opened Session

  /** The variables of the loop that reads a big block, between two turns. */
  datatype Turn = Turn(num: nat, at: nat, fed: Bytes, stream: Bytes, offsets: seq<nat>, hash: Bytes, last: Option<nat>)

  /** One call of the big block handler: what is unread when it starts, and its arguments. */
  datatype BigRead = BigRead(sha256: Hash, bytes: Bytes, limit: nat, size: nat, checksum: Bytes) {
    ghost function Result(): Run {
      BigBlockRun(sha256, bytes, limit, size, checksum)
    }

    ghost function FirstFront(): Option<nat> {
      if Min(limit, size) <= |bytes| then Front(bytes[..Min(limit, size)]) else None
    }

    ghost function AsJob(): Job {
      Job(Take(bytes, size), if FirstFront().Some? then FirstFront().value else 0, limit, size,
          DoubleSha256(sha256, Take(Take(bytes, size), 80)))
    }

    /** What holds between two turns, after the events `done`. */
    ghost predicate At(t: Turn, done: seq<Event>) {
      var job := AsJob();
      && limit > 0 && t.at == job.ReadTo(t.num) <= |job.block| && t.fed == job.block[..t.at]
      && (t.num == 0 ==> t.at == 0 && t.stream == [] && t.offsets == [] && done == [] && t.last.None?)
      && (FirstFront().None? ==> t.num == 0)
      && (FirstFront().Some? ==> Progress(job, t.num, t.stream, t.offsets, done))
      && (t.num > 0 ==> t.hash == job.hash && t.last == Some(job.Cut(t.num)))
    }

    /** How much the next turn reads. */
    ghost function Step(t: Turn): int {
      if size - t.at >= limit then limit else size - t.at
    }

    /** `data` is what the next turn reads. */
    ghost predicate NextData(t: Turn, data: Bytes) {
      t.at < size && |data| == Step(t) && data <= Drop(bytes, t.at)
    }

    /** Where the bytes held start in the block. */
    ghost function Cut(t: Turn): nat {
      if t.num > 0 && t.last.Some? then t.last.value else 0
    }

    /** What the next turn calls `tx_preprocessor` with, and what that returns. */
    ghost predicate Scanned(t: Turn, held: Bytes, start: nat, offsets: seq<nat>, lastTx: nat) {
      && (if t.num == 0 then Front(held) == Some(start) else start == 0)
      && offsets == Shift(AllButLast(Bounds(held, start)), Cut(t))
      && lastTx == if offsets == [] then start else Last(Bounds(held, start)) + Cut(t)
    }

    /** The variables after a turn that hands on the first `n` bytes held, and the event that does. */
    ghost function Advance(t: Turn, data: Bytes, n: nat, offsets: seq<nat>): (Turn, Event)
      requires limit > 0
    {
      var held := t.stream + data;
      var hash := if t.num == 0 then DoubleSha256(sha256, Take(held, 80)) else t.hash;
      (Turn(t.num + 1, t.at + |data|, t.fed + data, Drop(held, n), t.offsets + offsets, hash, Some(Cut(t) + n)),
       BlockChunk(t.num + 1, (size + limit - 1) / limit, hash, Take(held, n), offsets))
    }

    lemma Starts()
      requires limit > 0
      ensures At(Turn(0, 0, [], [], [], [], None), [])
    {
      hide Progress, BigBlockRun, Front, DoubleSha256;
      BigBlockCases(sha256, bytes, limit, size, checksum, FirstFront(), AsJob());
      if FirstFront().Some? {
        ProgressStarts(AsJob());
      }
    }

    lemma NextStep(t: Turn, done: seq<Event>)
      requires At(t, done) && t.at < size
      ensures 0 < t.at + Step(t) == AsJob().ReadTo(t.num + 1) <= size
      ensures t.num == 0 ==> Step(t) == Min(limit, size)
    {
      hide Progress, FirstFront, DoubleSha256, Job.Cut;
    }

    /** The next read, and what happens if it cannot be completed. */
    lemma Reads(t: Turn, done: seq<Event>, n: nat)
      requires At(t, done) && t.at < size && n == Step(t)
      ensures var left := Drop(bytes, t.at);
        if n <= |left| then Drop(left, n) == Drop(bytes, t.at + n)
        else
          var arrived := |Take(bytes, size)|;
          Result() == Run(done, arrived, ConnectionReset) && Drop(left, n) == Drop(bytes, arrived)
    {
      hide Progress, BigBlockRun, Front, DoubleSha256, Finish, Job.Chunks, Job.ReadTo, Job.Cut;
      NextStep(t, done);
      NextRead(bytes, size, t.at, n);
      BigBlockCases(sha256, bytes, limit, size, checksum, FirstFront(), AsJob());
      if n > |Drop(bytes, t.at)| && FirstFront().Some? {
        ProgressResets(AsJob(), t.num, t.stream, t.offsets, done);
        FinishFails(sha256, AsJob(), checksum);
      }
    }

    /** The bytes of the first read are the first the peer sends. */
    lemma FirstRead(t: Turn, done: seq<Event>, data: Bytes)
      requires At(t, done) && t.num == 0 && NextData(t, data)
      ensures t.stream + data == data == bytes[..Min(limit, size)]
      ensures Front(data) == FirstFront()
      ensures Front(data).Some? ==> Take(data, 80) == Take(Take(bytes, size), 80)
    {
      hide Progress, BigBlockRun, DoubleSha256, Job.Chunks, Job.ReadTo, Job.Cut, UnpackVarint;
      NextStep(t, done);
    }

    /** A first read without a readable count. */
    lemma FirstFails(t: Turn, done: seq<Event>, data: Bytes)
      requires At(t, done) && t.num == 0 && NextData(t, data)
      requires Front(t.stream + data).None?
      ensures Result() == Run(done, t.at + |data|, Crashed)
    {
      hide Progress, BigBlockRun, Front, DoubleSha256, Finish, Job.Chunks, Job.ReadTo, Job.Cut;
      NextStep(t, done);
      FirstRead(t, done, data);
      BigBlockCases(sha256, bytes, limit, size, checksum, FirstFront(), AsJob());
    }

    /** One turn, from what `tx_preprocessor` returns for the bytes held. */
    lemma Steps(t: Turn, done: seq<Event>, data: Bytes, start: nat, offsets: seq<nat>, lastTx: nat)
      requires At(t, done) && NextData(t, data) && Scanned(t, t.stream + data, start, offsets, lastTx)
      ensures limit > 0 &&
        if lastTx < Cut(t) then Result() == Run(done, t.at + |data|, Misbehaving)
        else
          var (next, chunk) := Advance(t, data, lastTx - Cut(t), offsets);
          At(next, done + [chunk])
    {
      hide Progress, BigBlockRun, Front, DoubleSha256, Finish, Job.Chunks, Job.ReadTo, Job.Cut, Bounds, Shift;
      hide Take, Drop, FirstFront;
      TurnReads(t, done, data, start);
      var job := AsJob();
      ReadStep(job, t.num, t.stream, t.offsets, done, data, offsets, lastTx);
      if lastTx < Cut(t) {
        BigBlockCases(sha256, bytes, limit, size, checksum, FirstFront(), job) by { FrontIs(); }
        FinishFails(sha256, job, checksum);
      }
    }

    lemma FrontIs()
      ensures FirstFront() == if Min(limit, size) <= |bytes| then Front(bytes[..Min(limit, size)]) else None
    {
      hide Front;
    }

    /** What a turn reads, as a step of the job. */
    lemma TurnReads(t: Turn, done: seq<Event>, data: Bytes, start: nat)
      requires At(t, done) && NextData(t, data)
      requires if t.num == 0 then Front(t.stream + data) == Some(start) else start == 0
      ensures var job, to := AsJob(), t.at + |data|;
        && limit > 0 && FirstFront().Some? && job.Valid() && Progress(job, t.num, t.stream, t.offsets, done)
        && t.at == job.ReadTo(t.num) && to == job.ReadTo(t.num + 1) <= |job.block|
        && data == job.block[t.at..to] && t.fed + data == job.block[..to]
        && start == (if t.num == 0 then job.front else 0) && Cut(t) == job.Cut(t.num)
        && (if t.num == 0 then DoubleSha256(sha256, Take(t.stream + data, 80)) else t.hash) == job.hash
    {
      hide Progress, BigBlockRun, Front, DoubleSha256, Finish, Job.Chunks, Job.ReadTo, Job.Cut;
      NextStep(t, done);
      NextRead(bytes, size, t.at, |data|);
      assert data == Drop(bytes, t.at)[..|data|];
      if t.num == 0 {
        FirstRead(t, done, data);
      }
      BigBlockCases(sha256, bytes, limit, size, checksum, FirstFront(), AsJob());
      if t.num == 0 {
        NothingCut(AsJob());
      }
    }

    /** After the last turn. */
    lemma Ends(t: Turn, done: seq<Event>)
      requires At(t, done) && t.at >= size
      ensures Result() ==
        if t.last != Some(size) || t.stream != [] then Run(done, t.at, Crashed)
        else if Take(sha256(sha256(t.fed)), 4) != checksum then Run(done, t.at, Misbehaving)
        else Run(done + [BlockDone(Big, t.hash, t.offsets, size, None)], t.at, Completed)
    {
      hide Progress, BigBlockRun, Front, Finish, Job.Chunks, Job.ReadTo, Job.Cut, Bounds;
      BigBlockCases(sha256, bytes, limit, size, checksum, FirstFront(), AsJob());
      if t.num > 0 {
        ProgressEnds(AsJob(), t.num, t.stream, t.offsets, done);
        assert t.fed == AsJob().block;
        FinishEnds(sha256, AsJob(), checksum, done);
      }
    }
  }

  lemma NothingCut(job: Job)
    requires job.Valid()
    ensures job.Cut(0) == 0
  {
  }

  lemma FinishFails(sha256: Hash, job: Job, checksum: Bytes)
    requires job.Valid() && job.Chunks(0).outcome != Completed
    ensures Finish(sha256, job, checksum) == job.Chunks(0)
  {
  }

  lemma FinishEnds(sha256: Hash, job: Job, checksum: Bytes, done: seq<Event>)
    requires job.Valid() && job.Chunks(0) == Run(done, job.size, Completed)
    ensures Finish(sha256, job, checksum) ==
      var all := Bounds(job.block, job.front);
      if Last(all) != job.size then Run(done, job.size, Crashed)
      else if Checksum(sha256, job.block) != checksum then Run(done, job.size, Misbehaving)
      else Run(done + [BlockDone(Big, job.hash, AllButLast(all), job.size, None)], job.size, Completed)
  {
  }

  class BitcoinClient {
    const net: Net
    /** What the reader still holds: everything the peer sends before the connection ends. */
    var buffer: Bytes
    /** Calls of the block handlers and puts to the message queue, in order. */
    var delivered: seq<Event>

    constructor (net: Net, bytes: Bytes)
      ensures this.net == net && buffer == bytes && delivered == []
    {
      this.net, buffer, delivered := net, bytes, [];
    }

    /** `reader.readexactly`: an incomplete read has used up what was left. */
    method ReadExactly(n: nat) returns (data: Option<Bytes>)
      modifies `buffer
      ensures data == if n <= |old(buffer)| then Some(old(buffer)[..n]) else None
      ensures buffer == Drop(old(buffer), n)
    {
      if n <= |buffer| {
        data := Some(buffer[..n]);
      } else {
        data := None;
      }
      buffer := Drop(buffer, n);
    }

    method ReadHeader() returns (r: HeaderRead)
      modifies `buffer
      ensures r == ReadHeaderFrom(net, old(buffer))
      ensures buffer == Drop(old(buffer), r.consumed)
    {
      hide LittleEndian, StripNul, Ascii;
      ghost var bytes := buffer;
      var arrived := |buffer|;
      var data := ReadExactly(24);
      if data.None? {
        return NoHeader(ConnectionReset, arrived);
      }
      var raw := data.value;
      assert raw[..4] == bytes[..4] && raw[4..16] == bytes[4..16];
      assert raw[16..20] == bytes[16..20] && raw[20..24] == bytes[20..24];
      if !Ascii(raw[4..16]) {
        return NoHeader(Misbehaving, 24);
      }
      if raw[..4] != net.magic {
        return NoHeader(Misbehaving, 24);
      }
      var header := MessageHeader(StripNul(raw[4..16]), LittleEndian(raw[16..20]), raw[20..24]);
      if header.command == EXTMSG {
        var more := ReadExactly(20);
        if more.None? {
          return NoHeader(ConnectionReset, arrived);
        }
        raw := raw + more.value;
        assert raw == bytes[..44];
        assert raw[24..36] == bytes[24..36] && raw[36..44] == bytes[36..44];
        assert raw[16..20] == bytes[16..20] && raw[20..24] == bytes[20..24];
        if header.length != MAX_UINT32 || header.checksum != [0, 0, 0, 0] {
          return NoHeader(Crashed, 44);
        }
        if !Ascii(raw[24..36]) {
          return NoHeader(Misbehaving, 44);
        }
        return Header(MessageHeader(StripNul(raw[24..36]), LittleEndian(raw[36..44]), raw[20..24]), 44);
      }
      return Header(header, 24);
    }

    /** `None` with an outcome stands for the exception. */
    method ReadSmallPayload(header: MessageHeader) returns (payload: Option<Bytes>, outcome: Outcome)
      modifies `buffer
      ensures buffer == Drop(old(buffer), header.length)
      ensures var data := Take(old(buffer), header.length);
        if |data| < header.length then payload == None && outcome == ConnectionReset
        else if Take(net.sha256(net.sha256(data)), 4) != header.checksum then payload == None && outcome == Misbehaving
        else payload == Some(data) && outcome == Completed
    {
      var data := ReadExactly(header.length);
      if data.None? {
        return None, ConnectionReset;
      }
      var hash := DoubleSha256(net.sha256, data.value);
      if header.checksum != Take(hash, 4) {
        return None, Misbehaving;
      }
      return data, Completed;
    }

    method HandleSmallBlock(block: Bytes, size: nat) returns (outcome: Outcome)
      modifies `delivered
      ensures var run := SmallBlockRun(net.sha256, block, size);
        outcome == run.outcome && delivered == old(delivered) + run.events
    {
      hide UnpackVarint, Bounds;
      var adjustment := 0;
      var blockHash := DoubleSha256(net.sha256, Take(block, 80));
      FrontOfSlice(block);
      var count := UnpackVarint(Drop(Take(block, 89), 80), 0);
      if count.None? {
        return Crashed;
      }
      var offset := 80 + count.value.next;
      var txOffsets, last, _ := TxPreprocessor(block, offset, adjustment);
      NoShift(AllButLast(Bounds(block, offset)));
      if last != |block| || |block| != size {
        return Crashed;
      }
      delivered := delivered + [BlockDone(Small, blockHash, txOffsets, size, Some(block))];
      return Completed;
    }

    /** Reads a big block in steps and hands on chunks of whole transactions. */
    method HandleBigBlock(size: nat, checksum: Bytes) returns (outcome: Outcome)
      modifies this
      ensures var run := BigBlockRun(net.sha256, old(buffer), net.limit, size, checksum);
        && outcome == run.outcome
        && delivered == old(delivered) + run.events
        && buffer == Drop(old(buffer), run.consumed)
    {
      hide UnpackVarint, Bounds, Shift, Front, BigBlockRun, Take, Drop, Checksum, DoubleSha256, BigRead.At;
      ghost var big := BigRead(net.sha256, buffer, net.limit, size, checksum);
      NothingRead(buffer);
      if net.limit == 0 {
        NoStepSize(net, buffer, size, checksum);
        return Crashed;
      }
      var limit := net.limit;
      ghost var was, done := delivered, [];

      var chunkNum: nat := 0;
      var last: Option<nat> := None;
      var numChunks := (size + limit - 1) / limit;
      var bytesRead: nat := 0;
      var offsetsAll: seq<nat> := [];
      var blockHash: Bytes := [];
      var adjustment: nat := 0;
      var fed: Bytes := [];
      var stream: Bytes := [];
      big.Starts();
      while bytesRead < size
        invariant big.At(Turn(chunkNum, bytesRead, fed, stream, offsetsAll, blockHash, last), done)
        invariant buffer == Drop(big.bytes, bytesRead) && delivered == was + done
        invariant bytesRead <= size
        invariant chunkNum <= 1 ==> adjustment == 0
        invariant chunkNum > 0 ==> last.Some?
        decreases size - bytesRead
      {
        ghost var turn := Turn(chunkNum, bytesRead, fed, stream, offsetsAll, blockHash, last);
        var n := if size - bytesRead >= limit then limit else size - bytesRead;
        big.Reads(turn, done, n);
        var data := ReadExactly(n);
        if data.None? {
          return ConnectionReset;
        }
        bytesRead := bytesRead + |data.value|;
        stream := stream + data.value;
        fed := fed + data.value;
        chunkNum := chunkNum + 1;
        var start: nat := 0;
        if chunkNum == 1 {
          var first := ReadFront(stream);
          if first.None? {
            big.FirstFails(turn, done, data.value);
            return Crashed;
          }
          blockHash, start := first.value.0, first.value.1;
        } else {
          adjustment := last.value;
        }
        var offsets, lastTx, _ := TxPreprocessor(stream, start, adjustment);
        big.Steps(turn, done, data.value, start, offsets, lastTx);
        offsetsAll := offsetsAll + offsets;
        last := Some(lastTx);
        var lenSlice := lastTx - adjustment;
        if lenSlice < 0 {
          return Misbehaving;
        }
        var slice := Take(stream, lenSlice);
        stream := Drop(stream, lenSlice);
        delivered := delivered + [BlockChunk(chunkNum, numChunks, blockHash, slice, offsets)];
        done := done + [BlockChunk(chunkNum, numChunks, blockHash, slice, offsets)];
      }
      big.Ends(Turn(chunkNum, bytesRead, fed, stream, offsetsAll, blockHash, last), done);
      outcome := FinishBigBlock(size, checksum, last, stream, fed, blockHash, offsetsAll);
    }

    /** The hash of the header, and where the first transaction starts. */
    method ReadFront(stream: Bytes) returns (r: Option<(Bytes, nat)>)
      ensures r == match Front(stream)
                   case None => None
                   case Some(front) => Some((DoubleSha256(net.sha256, Take(stream, 80)), front))
    {
      hide UnpackVarint, DoubleSha256;
      var rawHeader := Take(stream, 80);
      var blockHash := DoubleSha256(net.sha256, rawHeader);
      var count := UnpackVarint(stream, |rawHeader|);
      if |stream| < 80 {
        NothingToUnpack(stream, 80);
        NothingToUnpack(stream, |stream|);
      }
      return if count.None? then None else Some((blockHash, count.value.next));
    }

    /** The assertions after the last read, the checksum, and the final report. */
    method FinishBigBlock(size: nat, checksum: Bytes, last: Option<nat>, stream: Bytes, fed: Bytes,
                          blockHash: Bytes, offsets: seq<nat>) returns (outcome: Outcome)
      modifies `delivered
      ensures outcome == if last != Some(size) || stream != [] then Crashed
                         else if Take(net.sha256(net.sha256(fed)), 4) != checksum then Misbehaving
                         else Completed
      ensures delivered == old(delivered)
                           + if outcome == Completed then [BlockDone(Big, blockHash, offsets, size, None)] else []
    {
      if last != Some(size) {
        return Crashed;
      }
      if stream != [] {
        return Crashed;
      }
      if Take(DoubleSha256(net.sha256, fed), 4) != checksum {
        return Misbehaving;
      }
      delivered := delivered + [BlockDone(Big, blockHash, offsets, size, None)];
      return Completed;
    }

    method ReadAndHandlePayload(header: MessageHeader) returns (outcome: Outcome)
      modifies this
      ensures var run := PayloadRun(net, header, old(buffer));
        && outcome == run.outcome
        && delivered == old(delivered) + run.events
        && buffer == Drop(old(buffer), run.consumed)
    {
      hide SmallBlockRun, BigBlockRun;
      if header.length < net.limit {
        var payload;
        payload, outcome := ReadSmallPayload(header);
        if payload.Some? {
          if header.command == BLOCK {
            outcome := HandleSmallBlock(payload.value, header.length);
          } else {
            delivered := delivered + [MessageQueued(header.command, payload.value)];
          }
        }
      } else if header.command == BLOCK {
        outcome := HandleBigBlock(header.length, header.checksum);
      } else {
        var payload;
        payload, outcome := ReadSmallPayload(header);
        if payload.Some? {
          delivered := delivered + [MessageQueued(header.command, payload.value)];
        }
      }
    }

    /** `_session`: headers and payloads in turn, until an exception ends it. */
    method RunSession() returns (outcome: Outcome)
      modifies this
      ensures var run := SessionRun(net, old(buffer));
        && outcome == run.outcome != Completed
        && delivered == old(delivered) + run.events
        && buffer == Drop(old(buffer), run.consumed)
    {
      hide PayloadRun, ReadHeaderFrom, SessionRun, MessageRun, Drop;
      ghost var bytes, was, done := buffer, delivered, [];
      ghost var consumed: nat := 0;
      NothingRead(bytes);
      while true
        invariant buffer == Drop(bytes, consumed) && delivered == was + done
        invariant SessionRun(net, bytes) == After(done, consumed, SessionRun(net, buffer))
        decreases |buffer|
      {
        ghost var now := buffer;
        ghost var run := MessageRun(net, now);
        SessionAdvances(net, bytes, done, consumed);
        OneMessage(net, now);
        DropDrop(bytes, consumed, run.consumed);
        var read := ReadHeader();
        if read.NoHeader? {
          return read.outcome;
        }
        outcome := ReadAndHandlePayload(read.header);
        if outcome != Completed {
          return;
        }
        done, consumed := done + run.events, consumed + run.consumed;
      }
    }
  }

  /** One turn of the loop, header and payload. */
  lemma OneMessage(net: Net, bytes: Bytes)
    ensures var read, run := ReadHeaderFrom(net, bytes), MessageRun(net, bytes);
      match read
      case NoHeader(outcome, consumed) => run == Run([], consumed, outcome) && outcome != Completed
      case Header(header, consumed) =>
        var payload := PayloadRun(net, header, Drop(bytes, consumed));
        && run == Run(payload.events, consumed + payload.consumed, payload.outcome)
        && Drop(Drop(bytes, consumed), payload.consumed) == Drop(bytes, run.consumed)
        && |Drop(bytes, run.consumed)| < |bytes|
  {
    hide PayloadRun;
  }

  lemma NothingToUnpack(buf: Bytes, offset: nat)
    ensures offset >= |buf| ==> UnpackVarint(buf, offset).None?
  {
  }

  lemma NothingRead(bytes: Bytes)
    ensures Drop(bytes, 0) == bytes
  {
  }

  lemma NoStepSize(net: Net, bytes: Bytes, size: nat, checksum: Bytes)
    requires net.limit == 0
    ensures BigBlockRun(net.sha256, bytes, net.limit, size, checksum) == Run([], 0, Crashed)
    ensures Drop(bytes, 0) == bytes
  {
  }

  lemma NoShift(s: seq<nat>)
    ensures Shift(s, 0) == s
  {
  }
}
