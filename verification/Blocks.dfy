/**
 * What the block handlers promise: small blocks handled in one call, big blocks split
 * into chunks of whole transactions while they are read.
 */
module Blocks {
  import opened ByteStrings
  import opened Preprocessor
  import opened Wire

  // ----- what the handlers are called with, and how a session step ends -----

  datatype BlockKind = Small | Big

  datatype Event =
    | MessageQueued(command: Bytes, payload: Bytes)
    | BlockChunk(num: nat, total: nat, hash: Bytes, slice: Bytes, offsets: seq<nat>)
    | BlockDone(kind: BlockKind, hash: Bytes, offsets: seq<nat>, size: nat, data: Option<Bytes>)

  /** `Misbehaving` is a ValueError; `Crashed` is any exception the session does not expect. */
  datatype Outcome = Completed | ConnectionReset | Misbehaving | Crashed

  datatype Run = Run(events: seq<Event>, consumed: nat, outcome: Outcome)

  function After(events: seq<Event>, consumed: nat, rest: Run): Run {
    Run(events + rest.events, consumed + rest.consumed, rest.outcome)
  }

  type Hash = Bytes -> Bytes

  function DoubleSha256(sha256: Hash, data: Bytes): Bytes {
    sha256(sha256(data))
  }

  function Checksum(sha256: Hash, payload: Bytes): Bytes {
    Take(DoubleSha256(sha256, payload), 4)
  }

  /** Where the first transaction of a raw block starts, if the count after the header can be read. */
  function Front(block: Bytes): (r: Option<nat>)
    ensures r.Some? ==> 80 < r.value <= |block|
  {
    match UnpackVarint(block, 80)
    case None => None
    case Some(count) => Some(count.next)
  }

  /** The handler parses nine bytes sliced off after the header; that is the same read. */
  lemma FrontOfSlice(block: Bytes)
    ensures UnpackVarint(Drop(Take(block, 89), 80), 0) ==
      match UnpackVarint(block, 80) case None => None case Some(v) => Some(Varint(v.value, v.next - 80))
  {
    if |block| > 80 {
      var r := Min(|block|, 89);
      assert Drop(Take(block, 89), 80) == block[80..r];
      VarintWindow(block, 80, r, 0);
    }
  }

  // ----- small blocks -----

  ghost predicate ScansToEnd(block: Bytes) {
    Front(block).Some? && Last(Bounds(block, Front(block).value)) == |block|
  }

  ghost function SmallBlockRun(sha256: Hash, block: Bytes, size: nat): Run {
    if ScansToEnd(block) && |block| == size then
      Run([BlockDone(Small, DoubleSha256(sha256, block[..80]), AllButLast(Bounds(block, Front(block).value)),
                     size, Some(block))], 0, Completed)
    else
      Run([], 0, Crashed)
  }

  /**
   * A small block is accepted exactly when it is a header, a count and a run of
   * well-formed transactions. The count is read but never compared with the number
   * of transactions, so any count is accepted.
   */
  lemma SmallBlockAcceptsExactly(sha256: Hash, block: Bytes)
    ensures SmallBlockRun(sha256, block, |block|).outcome == Completed <==>
      exists header: Bytes, count: nat, tail: nat, txs: seq<Tx> ::
        |header| == 80 && FitsTail(count, tail) && ValidTxs(txs)
        && block == header + PackVarintWide(count, tail) + EncodeTxs(txs)
  {
    hide Bounds, PackVarintWide, EncodeTxs, Tx.Valid;
    if ScansToEnd(block) {
      var front := Front(block).value;
      PackUnpackVarint(block, 80);
      var txs := AcceptedTxs(block, front);
      var count, tail := UnpackVarint(block, 80).value.value, VarintTail(block[80]);
      assert block == block[..80] + PackVarintWide(count, tail) + EncodeTxs(txs);
    }
    forall header: Bytes, count: nat, tail: nat, txs: seq<Tx>
      | |header| == 80 && FitsTail(count, tail) && ValidTxs(txs)
        && block == header + PackVarintWide(count, tail) + EncodeTxs(txs)
      ensures ScansToEnd(block)
    {
      ReadVarint(block, header, count, tail, EncodeTxs(txs));
      TxsBounds(header + PackVarintWide(count, tail), txs);
    }
  }

  /** A block of no transactions that claims five is accepted. */
  lemma ClaimedCountIsIgnored(sha256: Hash)
    ensures var block: Bytes := seq(80, _ => 0) + [5];
      && UnpackVarint(block, 80) == Some(Varint(5, 81))
      && SmallBlockRun(sha256, block, 81).outcome == Completed
      && SmallBlockRun(sha256, block, 81).events[0].offsets == []
      && !(exists b: Block :: b.Valid() && b.Encode() == block)
  {
    hide Bounds, Block.Encode, Block.Valid;
    var block: Bytes := seq(80, _ => 0) + [5];
    ScanAtEnd(block);
    WellFormedExactly(block);
  }

  /** The bytes are those of a well-formed block exactly if they are accepted and the count is right. */
  lemma WellFormedExactly(block: Bytes)
    ensures (exists b: Block :: b.Valid() && b.Encode() == block) <==>
      ScansToEnd(block) && UnpackVarint(block, 80).value.value == |Bounds(block, Front(block).value)| - 1
  {
    hide Bounds, PackVarintWide, EncodeTxs, UnpackVarint, Tx.Valid;
    forall b: Block | b.Valid() && b.Encode() == block
      ensures ScansToEnd(block) && UnpackVarint(block, 80).value.value == |Bounds(block, Front(block).value)| - 1
    {
      BlockBounds(b);
    }
    if ScansToEnd(block) && UnpackVarint(block, 80).value.value == |Bounds(block, Front(block).value)| - 1 {
      var b := CountedBlock(block);
    }
  }

  lemma CountedBlock(block: Bytes) returns (b: Block)
    requires ScansToEnd(block) && UnpackVarint(block, 80).value.value == |Bounds(block, Front(block).value)| - 1
    ensures b.Valid() && b.Encode() == block
  {
    hide Bounds, PackVarintWide, EncodeTxs, UnpackVarint, Tx.Valid;
    var front := Front(block).value;
    PackUnpackVarint(block, 80);
    var txs := AcceptedTxs(block, front);
    assert block == block[..front] + EncodeTxs(txs);
    TxsBounds(block[..front], txs);
    b := Block(block[..80], VarintTail(block[80]), txs);
    assert block[..front] == block[..80] + block[80..front];
  }

  // ----- big blocks -----

  /** One big block being read in steps of `limit` bytes; `block` is what arrives of its `size` bytes. */
  datatype Job = Job(block: Bytes, front: nat, limit: nat, size: nat, hash: Bytes) {
    ghost predicate Valid() {
      0 < limit && |block| <= size && 80 < front <= Min(limit, size) && front <= |block|
    }

    /** Bytes read after `k` steps. */
    ghost function ReadTo(k: nat): (r: nat)
      ensures r <= size
    {
      if k == 0 then 0 else Min(ReadTo(k - 1) + limit, size)
    }

    lemma {:induction false} ReadToMonotone(j: nat, k: nat)
      requires j <= k
      ensures ReadTo(j) <= ReadTo(k)
      ensures k > 0 ==> Min(limit, size) <= ReadTo(k)
      decreases k
    {
      if k > 0 {
        ReadToMonotone(if j < k then j else k - 1, k - 1);
      }
    }

    /** `math.ceil(size / large_message_limit)`, without the rounding of floats. */
    ghost function NumChunks(): nat
      requires limit > 0
    {
      (size + limit - 1) / limit
    }

    /** The whole block's boundaries among the first `ReadTo(k)` bytes. */
    ghost function Marks(k: nat): (s: seq<nat>)
      requires Valid() && k > 0
      ensures |s| > 0 && s[0] == front && Last(s) <= ReadTo(k)
    {
      ReadToMonotone(0, k);
      UpTo(Bounds(block, front), ReadTo(k))
    }

    /** The end of the last whole transaction among the first `ReadTo(k)` bytes. */
    ghost function Cut(k: nat): (r: nat)
      requires Valid()
      ensures r <= ReadTo(k)
    {
      if k == 0 then 0 else Last(Marks(k))
    }

    /** How many transactions start before `Cut(k)`. */
    ghost function Started(k: nat): nat
      requires Valid()
    {
      if k == 0 then 0 else |Marks(k)| - 1
    }

    lemma MarksGrow(k: nat)
      requires Valid()
      ensures k > 0 ==> UpTo(Bounds(block, Cut(k)), ReadTo(k + 1)) == Marks(k + 1)[Started(k)..]
      ensures k > 0 ==> Marks(k + 1) == AllButLast(Marks(k)) + UpTo(Bounds(block, Cut(k)), ReadTo(k + 1))
      ensures Started(k) <= Started(k + 1) && Cut(k) <= Cut(k + 1)
      ensures k > 0 ==> front <= Cut(k)
    {
      hide Bounds, UpTo;
      if k > 0 {
        ReadToMonotone(k, k + 1);
        ReadToMonotone(0, k);
        BoundsResume(block, front, ReadTo(k), ReadTo(k + 1));
        var grown := UpTo(Bounds(block, Cut(k)), ReadTo(k + 1));
        assert (AllButLast(Marks(k)) + grown)[Started(k)..] == grown;
        BoundsAdvance(block, front);
        assert Cut(k) == Bounds(block, front)[Started(k)];
        assert Cut(k + 1) == Bounds(block, front)[Started(k + 1)];
      }
    }

    /** The bytes of the `k`-th chunk: from cut to cut. */
    ghost function Slice(k: nat): Bytes
      requires Valid() && k > 0 && ReadTo(k) <= |block|
    {
      hide Bounds, UpTo;
      MarksGrow(k - 1);
      block[Cut(k - 1)..Cut(k)]
    }

    /** The starts of the transactions of the `k`-th chunk. */
    ghost function Offsets(k: nat): seq<nat>
      requires Valid() && k > 0
    {
      hide Bounds, UpTo, ReadTo;
      MarksGrow(k - 1);
      Marks(k)[Started(k - 1)..Started(k)]
    }

    /** The `k`-th chunk, described by the boundaries of the whole block alone. */
    ghost function Chunk(k: nat): Event
      requires Valid() && k > 0 && ReadTo(k) <= |block|
    {
      BlockChunk(k, NumChunks(), hash, Slice(k), Offsets(k))
    }

    /** A step after the first that completes no transaction. */
    ghost predicate Stalls(k: nat)
      requires Valid()
    {
      k > 1 && Cut(k) == Cut(k - 1)
    }

    /** What happens after `k` steps. */
    ghost function Chunks(k: nat): Run
      requires Valid() && ReadTo(k) <= |block|
      decreases size - ReadTo(k)
    {
      if ReadTo(k) == size then Run([], 0, Completed)
      else if ReadTo(k + 1) > |block| then Run([], |block| - ReadTo(k), ConnectionReset)
      else
        ReadToMonotone(k, k + 1);
        var step := ReadTo(k + 1) - ReadTo(k);
        if Stalls(k + 1) then Run([], step, Misbehaving)
        else After([Chunk(k + 1)], step, Chunks(k + 1))
    }
  }

  /** The checks after the last step. */
  ghost function Finish(sha256: Hash, job: Job, checksum: Bytes): Run
    requires job.Valid()
  {
    var run := job.Chunks(0);
    if run.outcome != Completed then run
    else if Last(Bounds(job.block, job.front)) != job.size then run.(outcome := Crashed)
    else if Checksum(sha256, job.block) != checksum then run.(outcome := Misbehaving)
    else run.(events := run.events
                        + [BlockDone(Big, job.hash, AllButLast(Bounds(job.block, job.front)), job.size, None)])
  }

  /** `bytes` is everything the peer still sends; the block is its first `size` bytes. */
  ghost function BigBlockRun(sha256: Hash, bytes: Bytes, limit: nat, size: nat, checksum: Bytes): Run {
    var block := Take(bytes, size);
    var first := Min(limit, size);
    if limit == 0 || size == 0 then Run([], 0, Crashed)
    else if |block| < first then Run([], |block|, ConnectionReset)
    else if Front(block[..first]).None? then Run([], first, Crashed)
    else
      var job := Job(block, Front(block[..first]).value, limit, size, DoubleSha256(sha256, block[..80]));
      Finish(sha256, job, checksum)
  }

  /** The bytes held when step `k + 1` is scanned. */
  ghost predicate Holds(job: Job, k: nat, stream: Bytes) {
    && job.Valid() && job.ReadTo(k) < job.size && job.ReadTo(k + 1) <= |job.block|
    && job.Cut(k) <= job.ReadTo(k + 1) && stream == job.block[job.Cut(k)..job.ReadTo(k + 1)]
  }

  /** What `tx_preprocessor` returns for one step, in terms of the whole block. */
  lemma StepScan(job: Job, k: nat, stream: Bytes)
    requires Holds(job, k, stream)
    ensures var s := Bounds(stream, if k == 0 then job.front else 0);
      && Shift(AllButLast(s), job.Cut(k)) == job.Offsets(k + 1)
      && Last(s) + job.Cut(k) == job.Cut(k + 1)
      && (|s| == 1 <==> job.Cut(k + 1) == if k == 0 then job.front else job.Cut(k))
  {
    hide Bounds, UpTo, Shift, Job.ReadTo;
    var a, r := job.Cut(k), job.ReadTo(k + 1);
    var o := if k == 0 then job.front else 0;
    var s := Bounds(stream, o);
    job.ReadToMonotone(k, k + 1);
    job.MarksGrow(k);
    BoundsWindow(job.block, a, r, o);
    BoundsAdvance(stream, o);
    ShiftLast(s, a);
    assert AllButLast(job.Marks(k + 1)[job.Started(k)..]) == job.Offsets(k + 1);
  }

  /** A step stalls exactly when the last offset it returns is below the adjustment. */
  lemma StepStalls(job: Job, k: nat, stream: Bytes, offsets: seq<nat>, lastTx: nat)
    requires Holds(job, k, stream)
    requires var start := if k == 0 then job.front else 0;
      && offsets == Shift(AllButLast(Bounds(stream, start)), job.Cut(k))
      && lastTx == if offsets == [] then start else Last(Bounds(stream, start)) + job.Cut(k)
    ensures offsets == job.Offsets(k + 1)
    ensures job.Stalls(k + 1) <==> lastTx < job.Cut(k)
    ensures !job.Stalls(k + 1) ==> lastTx == job.Cut(k + 1)
  {
    hide Bounds, UpTo, Shift, Job.Marks, Job.Cut, Job.Started, Job.Offsets, Job.ReadTo;
    StepScan(job, k, stream);
    CutsGrow(job, k);
  }

  lemma CutsGrow(job: Job, k: nat)
    requires job.Valid()
    ensures job.Cut(k) <= job.Cut(k + 1) <= job.ReadTo(k + 1)
    ensures if k == 0 then job.Cut(k) == 0 else job.Cut(k) >= job.front
  {
    job.MarksGrow(k);
  }

  /** Cutting a chunk off the bytes held leaves the bytes held before the next read. */
  lemma StepCuts(job: Job, k: nat, stream: Bytes)
    requires Holds(job, k, stream) && job.Cut(k) <= job.Cut(k + 1)
    ensures Take(stream, job.Cut(k + 1) - job.Cut(k)) == job.Slice(k + 1)
    ensures Drop(stream, job.Cut(k + 1) - job.Cut(k)) == job.block[job.Cut(k + 1)..job.ReadTo(k + 1)]
  {
    hide Job.Marks, Job.Cut, Job.Started, Job.ReadTo;
    CutsGrow(job, k);
  }

  lemma OffsetsAppend(job: Job, k: nat)
    requires job.Valid()
    ensures AllButLast(job.Marks(k + 1))
         == (if k == 0 then [] else AllButLast(job.Marks(k))) + job.Offsets(k + 1)
  {
    hide Bounds, UpTo;
    job.MarksGrow(k);
    var marks := job.Marks(k + 1);
    assert AllButLast(marks) == marks[..job.Started(k)] + marks[job.Started(k)..job.Started(k + 1)];
  }

  /** After the last step all boundaries of the block have been found. */
  lemma WholeMarks(job: Job, k: nat)
    requires job.Valid() && |job.block| == job.size == job.ReadTo(k) && k > 0
    ensures job.Marks(k) == Bounds(job.block, job.front)
  {
    hide Bounds;
    var all := Bounds(job.block, job.front);
    BoundsAdvance(job.block, job.front);
    assert forall i :: 0 <= i < |all| ==> all[i] <= Last(all);
  }

  // ----- the state of the reading loop -----

  /**
   * After `k` steps: the stream holds the block from the last cut to the last byte read,
   * the offsets so far are those of the transactions before the cut, and the chunks so far
   * are the first ones of the whole run.
   */
  ghost predicate Progress(job: Job, k: nat, stream: Bytes, offsets: seq<nat>, done: seq<Event>) {
    && job.Valid() && job.ReadTo(k) <= |job.block|
    && stream == job.block[job.Cut(k)..job.ReadTo(k)]
    && offsets == (if k == 0 then [] else AllButLast(job.Marks(k)))
    && job.Chunks(0) == After(done, job.ReadTo(k), job.Chunks(k))
  }

  lemma ProgressStarts(job: Job)
    requires job.Valid()
    ensures Progress(job, 0, [], [], [])
  {
    hide Job.Chunks;
  }

  /** The next read cannot be completed. */
  lemma ProgressResets(job: Job, k: nat, stream: Bytes, offsets: seq<nat>, done: seq<Event>)
    requires Progress(job, k, stream, offsets, done)
    requires job.ReadTo(k) < job.size && job.ReadTo(k + 1) > |job.block|
    ensures job.Chunks(0) == Run(done, |job.block|, ConnectionReset)
  {
    hide Job.Marks, Job.Cut, Job.ReadTo;
  }

  lemma ProgressHolds(job: Job, k: nat, stream: Bytes, offsets: seq<nat>, done: seq<Event>, data: Bytes)
    requires Progress(job, k, stream, offsets, done)
    requires job.ReadTo(k) < job.size && job.ReadTo(k + 1) <= |job.block|
    requires job.ReadTo(k) <= job.ReadTo(k + 1) && data == job.block[job.ReadTo(k)..job.ReadTo(k + 1)]
    ensures Holds(job, k, stream + data)
  {
    hide Job.Marks, Job.Cut, Job.ReadTo, Job.Chunks;
  }

  /** The next step stalls. */
  lemma ProgressStalls(job: Job, k: nat, stream: Bytes, offsets: seq<nat>, done: seq<Event>)
    requires Progress(job, k, stream, offsets, done)
    requires job.ReadTo(k) < job.size && job.ReadTo(k + 1) <= |job.block| && job.Stalls(k + 1)
    ensures job.Chunks(0) == Run(done, job.ReadTo(k + 1), Misbehaving)
  {
    hide Job.Marks, Job.Cut, Job.ReadTo, Job.Stalls;
    job.ReadToMonotone(k, k + 1);
  }

  /** The next step hands on a chunk. */
  lemma ProgressSteps(job: Job, k: nat, stream: Bytes, offsets: seq<nat>, done: seq<Event>)
    requires Progress(job, k, stream, offsets, done)
    requires job.ReadTo(k) < job.size && job.ReadTo(k + 1) <= |job.block| && !job.Stalls(k + 1)
    ensures Progress(job, k + 1, job.block[job.Cut(k + 1)..job.ReadTo(k + 1)],
                     offsets + job.Offsets(k + 1), done + [job.Chunk(k + 1)])
  {
    hide Job.Marks, Job.Cut, Job.ReadTo, Job.Stalls, Job.Offsets, Job.Chunk;
    job.ReadToMonotone(k, k + 1);
    OffsetsAppend(job, k);
  }

  /** One turn of the reading loop, from what `tx_preprocessor` returns for the bytes held. */
  lemma ReadStep(job: Job, k: nat, stream: Bytes, sofar: seq<nat>, done: seq<Event>,
                 data: Bytes, offsets: seq<nat>, lastTx: nat)
    requires Progress(job, k, stream, sofar, done)
    requires job.ReadTo(k) < job.size && job.ReadTo(k) <= job.ReadTo(k + 1) <= |job.block|
    requires data == job.block[job.ReadTo(k)..job.ReadTo(k + 1)]
    requires var held, start := stream + data, if k == 0 then job.front else 0;
      && offsets == Shift(AllButLast(Bounds(held, start)), job.Cut(k))
      && lastTx == if offsets == [] then start else Last(Bounds(held, start)) + job.Cut(k)
    ensures if lastTx < job.Cut(k) then job.Chunks(0) == Run(done, job.ReadTo(k + 1), Misbehaving)
      else
        var held, cut := stream + data, lastTx - job.Cut(k);
        && lastTx == job.Cut(k + 1)
        && Progress(job, k + 1, Drop(held, cut), sofar + offsets,
                    done + [BlockChunk(k + 1, job.NumChunks(), job.hash, Take(held, cut), offsets)])
  {
    hide Bounds, UpTo, Shift, Progress, Job.Marks, Job.Cut, Job.Started, Job.Slice, Job.Offsets;
    hide Job.Stalls, Job.Chunks, Job.ReadTo;
    ProgressHolds(job, k, stream, sofar, done, data);
    CutsGrow(job, k);
    StepStalls(job, k, stream + data, offsets, lastTx);
    if lastTx < job.Cut(k) {
      ProgressStalls(job, k, stream, sofar, done);
    } else {
      StepCuts(job, k, stream + data);
      ProgressSteps(job, k, stream, sofar, done);
    }
  }

  lemma ProgressEnds(job: Job, k: nat, stream: Bytes, offsets: seq<nat>, done: seq<Event>)
    requires Progress(job, k, stream, offsets, done) && job.ReadTo(k) == job.size && k > 0
    ensures job.Chunks(0) == Run(done, job.size, Completed)
    ensures job.Cut(k) == Last(Bounds(job.block, job.front))
    ensures offsets == AllButLast(Bounds(job.block, job.front))
    ensures job.Cut(k) == job.size ==> stream == []
  {
    hide Bounds, UpTo, Job.Marks, Job.ReadTo;
    WholeMarks(job, k);
  }

  // ----- unfolding the specification of a big block -----

  lemma BigBlockCases(sha256: Hash, bytes: Bytes, limit: nat, size: nat, checksum: Bytes, front: Option<nat>, job: Job)
    requires limit > 0
    requires front == if Min(limit, size) <= |bytes| then Front(bytes[..Min(limit, size)]) else None
    requires job == Job(Take(bytes, size), if front.Some? then front.value else 0, limit, size,
                        DoubleSha256(sha256, Take(Take(bytes, size), 80)))
    ensures var run := BigBlockRun(sha256, bytes, limit, size, checksum);
      if size == 0 then run == Run([], 0, Crashed) && front.None?
      else if |job.block| < Min(limit, size) then run == Run([], |job.block|, ConnectionReset) && front.None?
      else if front.None? then run == Run([], Min(limit, size), Crashed)
      else job.Valid() && run == Finish(sha256, job, checksum)
  {
    hide Finish, UnpackVarint;
    var block, first := Take(bytes, size), Min(limit, size);
    if first <= |bytes| {
      assert block[..first] == bytes[..first];
    }
    if front.Some? {
      assert Take(block, 80) == block[..80];
    }
  }

  /** What the next read returns, and what it means for the bytes read so far. */
  lemma NextRead(bytes: Bytes, size: nat, at: nat, n: nat)
    requires at <= |Take(bytes, size)| && n <= size - at
    ensures var block, left := Take(bytes, size), Drop(bytes, at);
      if n <= |left| then
        && at + n <= |block| && left[..n] == block[at..at + n]
        && block[..at] + left[..n] == block[..at + n] && Drop(left, n) == Drop(bytes, at + n)
      else at + n > |block| && Drop(left, n) == [] == Drop(bytes, |block|)
  {
  }
}
