/**
 * Splitting a big block while it is read gives the same result as scanning it whole,
 * for every byte string and every step size; exactly when it does is stated below.
 */
module Streaming {
  import opened ByteStrings
  import opened Preprocessor
  import opened Wire
  import opened Blocks

  // ----- steps and their numbers -----

  lemma {:induction false} ReadToClosed(job: Job, k: nat)
    ensures job.ReadTo(k) == if k * job.limit <= job.size then k * job.limit else job.size
  {
    if k > 0 {
      ReadToClosed(job, k - 1);
      assert k * job.limit == (k - 1) * job.limit + job.limit;
    }
  }

  /** The last step is step number `num_chunks`: the block is read then, and not before. */
  lemma StepCount(job: Job, k: nat)
    requires job.limit > 0
    ensures job.ReadTo(k) == job.size <==> k >= job.NumChunks()
  {
    hide Job.ReadTo, Job.NumChunks;
    CeilBounds(job);
    ReadToClosed(job, k);
    if k >= job.NumChunks() {
      MulMonotone(job.NumChunks(), k, job.limit);
    } else {
      MulMonotone(k, job.NumChunks() - 1, job.limit);
    }
  }

  lemma CeilBounds(job: Job)
    requires job.limit > 0
    ensures (job.NumChunks() - 1) * job.limit < job.size <= job.NumChunks() * job.limit
  {
    hide Job.ReadTo;
    var n, top := job.NumChunks(), job.size + job.limit - 1;
    assert top == n * job.limit + top % job.limit;
    assert (n - 1) * job.limit == n * job.limit - job.limit;
  }

  lemma MulMonotone(a: int, b: int, c: nat)
    requires a <= b
    ensures a * c <= b * c
  {
  }

  /** Chunks are numbered 1, 2, ... without gaps, and each is what `Chunk` says, even in a run that fails. */
  lemma {:induction false} ChunksAreNumbered(job: Job, k: nat, i: nat)
    requires job.Valid() && job.ReadTo(k) <= |job.block|
    requires i < |job.Chunks(k).events|
    ensures job.ReadTo(k + 1 + i) <= |job.block|
    ensures job.Chunks(k).events[i] == job.Chunk(k + 1 + i) && job.Chunk(k + 1 + i).num == k + 1 + i
    ensures !job.Stalls(k + 1 + i)
    decreases i
  {
    hide Bounds, UpTo, Job.Marks, Job.Cut, Job.Started, Job.ReadTo, Job.Stalls;
    if i > 0 {
      ChunksAreNumbered(job, k + 1, i - 1);
    }
  }

  /** When all bytes arrive, the run goes through all steps unless one of them stalls. */
  lemma {:induction false} ChunksOutcome(job: Job, k: nat)
    requires job.Valid() && |job.block| == job.size && k <= job.NumChunks()
    ensures var run, n := job.Chunks(k), job.NumChunks();
      if forall j :: k < j <= n ==> !job.Stalls(j)
      then run.outcome == Completed && |run.events| == n - k && run.consumed == job.size - job.ReadTo(k)
      else run.outcome == Misbehaving
    decreases job.NumChunks() - k
  {
    hide Job.Stalls, Job.Marks, Job.Cut, Job.Chunk, Job.ReadTo;
    StepCount(job, k);
    var n := job.NumChunks();
    if k < n && !job.Stalls(k + 1) {
      ChunksOutcome(job, k + 1);
      assert (forall j :: k < j <= n ==> !job.Stalls(j)) <==> (forall j :: k + 1 < j <= n ==> !job.Stalls(j));
    }
  }

  // ----- when a step stalls -----

  /** Some transaction ends after `lo` and not after `hi`. */
  ghost predicate EndsIn(block: Bytes, front: nat, lo: nat, hi: nat) {
    exists i :: 0 <= i < |Bounds(block, front)| && lo < Bounds(block, front)[i] <= hi
  }

  lemma StallsExactly(job: Job, k: nat)
    requires job.Valid() && k > 0
    ensures job.Stalls(k + 1) <==> !EndsIn(job.block, job.front, job.ReadTo(k), job.ReadTo(k + 1))
  {
    hide Bounds, UpTo;
    var all, before, after := Bounds(job.block, job.front), job.Marks(k), job.Marks(k + 1);
    job.ReadToMonotone(k, k + 1);
    job.ReadToMonotone(0, k);
    job.MarksGrow(k);
    BoundsAdvance(job.block, job.front);
    assert Last(before) == all[|before| - 1] && Last(after) == all[|after| - 1];
    if |after| > |before| {
      assert job.ReadTo(k) < all[|after| - 1] <= job.ReadTo(k + 1);
    }
  }

  /** The `k`-th window of `limit` bytes contains the end of a transaction. */
  ghost predicate StepEndsATx(block: Bytes, front: nat, limit: nat, k: nat) {
    EndsIn(block, front, k * limit, (k + 1) * limit)
  }

  /** Each read after the first completes a transaction. A caller can check it on the block. */
  ghost predicate EveryStepEndsATx(block: Bytes, front: nat, limit: nat) {
    forall k :: 1 <= k && k * limit < |block| ==> StepEndsATx(block, front, limit, k)
  }

  lemma StallsInWindow(job: Job, k: nat)
    requires job.Valid() && |job.block| == job.size && k > 0 && k * job.limit < job.size
    ensures job.Stalls(k + 1) <==> !StepEndsATx(job.block, job.front, job.limit, k)
  {
    hide Bounds, Job.Stalls;
    ReadToClosed(job, k);
    ReadToClosed(job, k + 1);
    BoundsAdvance(job.block, job.front);
    StallsExactly(job, k);
    var all := Bounds(job.block, job.front);
    assert forall i :: 0 <= i < |all| ==> all[i] <= Last(all) <= job.size;
  }

  lemma NoStallExactly(job: Job)
    requires job.Valid() && |job.block| == job.size
    ensures (forall j :: 0 < j <= job.NumChunks() ==> !job.Stalls(j))
      <==> EveryStepEndsATx(job.block, job.front, job.limit)
  {
    hide Job.Stalls, StepEndsATx;
    forall k | 1 <= k && k * job.limit < job.size
      ensures k < job.NumChunks() && (job.Stalls(k + 1) <==> !StepEndsATx(job.block, job.front, job.limit, k))
    {
      StepCount(job, k);
      ReadToClosed(job, k);
      StallsInWindow(job, k);
    }
    if forall j :: 0 < j <= job.NumChunks() ==> !job.Stalls(j) {
      forall k | 1 <= k && k * job.limit < job.size
        ensures StepEndsATx(job.block, job.front, job.limit, k)
      {
        assert !job.Stalls(k + 1);
      }
    }
    if EveryStepEndsATx(job.block, job.front, job.limit) {
      forall j | 0 < j <= job.NumChunks() ensures !job.Stalls(j) {
        if j == 1 {
          FirstNeverStalls(job);
        } else {
          StepCount(job, j - 1);
          ReadToClosed(job, j - 1);
          assert StepEndsATx(job.block, job.front, job.limit, j - 1);
          assert job.Stalls((j - 1) + 1) <==> !StepEndsATx(job.block, job.front, job.limit, j - 1);
        }
      }
    }
  }

  lemma FirstNeverStalls(job: Job)
    requires job.Valid()
    ensures !job.Stalls(1)
  {
  }

  // ----- the main result -----

  /** The front read from the first step's bytes is the block's, if it lies within them. */
  lemma FrontOfFirst(block: Bytes, first: nat)
    requires first <= |block|
    ensures Front(block[..first]) ==
      if Front(block).Some? && Front(block).value <= first then Front(block) else None
  {
    assert block[..first] == block[0..first];
    VarintWindow(block, 0, first, 80);
  }

  ghost predicate Splits(block: Bytes, limit: nat) {
    && ScansToEnd(block)
    && 0 < limit && Front(block).value <= limit
    && EveryStepEndsATx(block, Front(block).value, limit)
  }

  /**
   * For every byte string and every step size: a big block is accepted exactly when it
   * all arrives, would be accepted as a small block, has its header and count in the
   * first step, ends a transaction in every later step, and has the right checksum.
   */
  lemma BigBlockCompletesExactly(sha256: Hash, bytes: Bytes, limit: nat, size: nat, checksum: Bytes)
    ensures BigBlockRun(sha256, bytes, limit, size, checksum).outcome == Completed <==>
      && size <= |bytes| && Splits(bytes[..size], limit)
      && Take(sha256(sha256(bytes[..size])), 4) == checksum
  {
    hide Bounds, EveryStepEndsATx, Job.Stalls, Job.Chunk, Job.ReadTo, Job.Chunks, UnpackVarint;
    if limit > 0 && size > 0 {
      var block, first := Take(bytes, size), Min(limit, size);
      if |block| >= first {
        FrontOfFirst(block, first);
        if Front(block[..first]).Some? {
          var job := Job(block, Front(block).value, limit, size, DoubleSha256(sha256, block[..80]));
          assert job.ReadTo(0) == 0 by { ReadToClosed(job, 0); }
          if |block| == size {
            ChunksOutcome(job, 0);
            NoStallExactly(job);
          } else {
            ShortBlockResets(job, 0);
          }
        }
      }
    }
  }

  lemma {:induction false} ShortBlockResets(job: Job, k: nat)
    requires job.Valid() && |job.block| < job.size && job.ReadTo(k) <= |job.block|
    ensures job.Chunks(k).outcome != Completed
    decreases job.size - job.ReadTo(k)
  {
    hide Job.Stalls, Job.Chunk;
    if job.ReadTo(k + 1) <= |job.block| && !job.Stalls(k + 1) {
      ShortBlockResets(job, k + 1);
    }
  }

  /**
   * An accepted big block reports what the small block handler would report for the same
   * bytes: the same hash, size and full list of offsets. It has consumed exactly its
   * bytes, and every event before the last is a numbered chunk with that hash.
   */
  lemma BigBlockAgreesWithSmall(sha256: Hash, bytes: Bytes, limit: nat, size: nat, checksum: Bytes)
    requires BigBlockRun(sha256, bytes, limit, size, checksum).outcome == Completed
    ensures var big := BigBlockRun(sha256, bytes, limit, size, checksum);
      && size <= |bytes| && big.consumed == size && big.events != []
      && var small := SmallBlockRun(sha256, bytes[..size], size);
      && small.outcome == Completed
      && Last(big.events) == small.events[0].(kind := Big, data := None)
      && Last(big.events).hash == sha256(sha256(Take(bytes, 80)))
      && |big.events| - 1 == (size + limit - 1) / limit
      && forall i :: 0 <= i < |big.events| - 1 ==>
           && big.events[i].BlockChunk? && big.events[i].num == i + 1 && big.events[i].total == |big.events| - 1
           && big.events[i].hash == Last(big.events).hash
  {
    hide Bounds, EveryStepEndsATx, Job.Stalls, Job.ReadTo, Job.Chunks, UnpackVarint;
    BigBlockCompletesExactly(sha256, bytes, limit, size, checksum);
    var block, first := bytes[..size], Min(limit, size);
    assert block[..80] == Take(bytes, 80);
    FrontOfFirst(block, first);
    var job := Job(block, Front(block).value, limit, size, DoubleSha256(sha256, block[..80]));
    assert job.ReadTo(0) == 0 by { ReadToClosed(job, 0); }
    ChunksOutcome(job, 0);
    NoStallExactly(job);
    var run := job.Chunks(0);
    forall i | 0 <= i < |run.events|
      ensures run.events[i].BlockChunk? && run.events[i].num == i + 1 && run.events[i].total == job.NumChunks()
      ensures run.events[i].hash == job.hash
    {
      ChunksAreNumbered(job, 0, i);
    }
  }

  /**
   * A block whose header and count fit the first step but which has a later step without
   * a transaction end is refused as misbehaviour, although every byte of it may be right.
   */
  lemma StalledBlockIsRefused(sha256: Hash, bytes: Bytes, limit: nat, size: nat, checksum: Bytes)
    requires size <= |bytes| && Front(bytes[..size]).Some? && Front(bytes[..size]).value <= limit
    requires !EveryStepEndsATx(bytes[..size], Front(bytes[..size]).value, limit)
    ensures BigBlockRun(sha256, bytes, limit, size, checksum).outcome == Misbehaving
  {
    hide Bounds, EveryStepEndsATx, Job.Stalls, Job.ReadTo, Job.Chunks, UnpackVarint;
    var block, first := bytes[..size], Min(limit, size);
    FrontOfFirst(block, first);
    var job := Job(block, Front(block).value, limit, size, DoubleSha256(sha256, block[..80]));
    assert job.ReadTo(0) == 0 by { ReadToClosed(job, 0); }
    ChunksOutcome(job, 0);
    NoStallExactly(job);
  }

  /** Of the reads after the first, all that arrive whole end a transaction. */
  ghost predicate EveryReadEndsATx(block: Bytes, front: nat, limit: nat, size: nat) {
    forall k :: 1 <= k && k * limit < size && (|block| == size || (k + 1) * limit <= |block|) ==>
      StepEndsATx(block, front, limit, k)
  }

  lemma {:induction false} ShortOutcome(job: Job, k: nat)
    requires job.Valid() && |job.block| < job.size && job.ReadTo(k) <= |job.block|
    ensures job.Chunks(k).outcome ==
      if forall j :: k < j && job.ReadTo(j) <= |job.block| ==> !job.Stalls(j) then ConnectionReset else Misbehaving
    decreases job.size - job.ReadTo(k)
  {
    hide Job.Stalls, Job.Chunk;
    if job.ReadTo(k + 1) > |job.block| {
      forall j | k < j ensures job.ReadTo(j) > |job.block| {
        job.ReadToMonotone(k + 1, j);
      }
    } else if !job.Stalls(k + 1) {
      ShortOutcome(job, k + 1);
    }
  }

  lemma ShortStall(job: Job, k: nat)
    requires job.Valid() && |job.block| < job.size && 1 <= k && (k + 1) * job.limit <= |job.block|
    ensures job.ReadTo(k + 1) <= |job.block| && k * job.limit < job.size
    ensures job.Stalls(k + 1) <==> !StepEndsATx(job.block, job.front, job.limit, k)
  {
    hide Job.Stalls, Job.ReadTo;
    ReadToClosed(job, k + 1);
    ReadToClosed(job, k);
    MulMonotone(k, k + 1, job.limit);
    StallsExactly(job, k);
  }

  lemma NoShortStallExactly(job: Job)
    requires job.Valid() && |job.block| < job.size
    ensures (forall j :: 0 < j && job.ReadTo(j) <= |job.block| ==> !job.Stalls(j))
       <==> EveryReadEndsATx(job.block, job.front, job.limit, job.size)
  {
    hide Job.Stalls, Job.ReadTo, StepEndsATx;
    if EveryReadEndsATx(job.block, job.front, job.limit, job.size) {
      forall j | 0 < j && job.ReadTo(j) <= |job.block| ensures !job.Stalls(j) {
        ReadToClosed(job, j);
        if j == 1 {
          FirstNeverStalls(job);
        } else {
          ShortStall(job, j - 1);
          assert StepEndsATx(job.block, job.front, job.limit, j - 1);
        }
      }
    }
    if forall j :: 0 < j && job.ReadTo(j) <= |job.block| ==> !job.Stalls(j) {
      forall k | 1 <= k && (k + 1) * job.limit <= |job.block| ensures StepEndsATx(job.block, job.front, job.limit, k) {
        ShortStall(job, k);
        assert !job.Stalls(k + 1);
      }
    }
  }

  /**
   * How every big block ends, whatever arrives of it: in this order, an unreadable count in
   * the first read crashes, a read without a transaction end is misbehaviour, a connection
   * that ends early resets, bytes after the last transaction crash, and a wrong checksum is
   * misbehaviour.
   */
  lemma BigBlockEndsExactly(sha256: Hash, bytes: Bytes, limit: nat, size: nat, checksum: Bytes)
    ensures var block, first := Take(bytes, size), Min(limit, size);
      BigBlockRun(sha256, bytes, limit, size, checksum).outcome ==
      if limit == 0 || size == 0 then Crashed
      else if |block| < first then ConnectionReset
      else if Front(block).None? || Front(block).value > first then Crashed
      else if !EveryReadEndsATx(block, Front(block).value, limit, size) then Misbehaving
      else if |block| < size then ConnectionReset
      else if Last(Bounds(block, Front(block).value)) != size then Crashed
      else if Take(sha256(sha256(block)), 4) != checksum then Misbehaving
      else Completed
  {
    hide Bounds, Job.Stalls, Job.Chunk, Job.ReadTo, Job.Chunks, UnpackVarint, EveryStepEndsATx, EveryReadEndsATx;
    if limit > 0 && size > 0 {
      var block, first := Take(bytes, size), Min(limit, size);
      if |block| >= first {
        FrontOfFirst(block, first);
        if Front(block[..first]).Some? {
          var job := Job(block, Front(block).value, limit, size, DoubleSha256(sha256, block[..80]));
          assert job.ReadTo(0) == 0 by { ReadToClosed(job, 0); }
          if |block| == size {
            ChunksOutcome(job, 0);
            NoStallExactly(job);
            SameSteps(block, job.front, limit);
          } else {
            ShortOutcome(job, 0);
            NoShortStallExactly(job);
          }
        }
      }
    }
  }

  lemma SameSteps(block: Bytes, front: nat, limit: nat)
    ensures EveryReadEndsATx(block, front, limit, |block|) <==> EveryStepEndsATx(block, front, limit)
  {
    hide StepEndsATx;
  }

  // ----- well-formed blocks -----

  /** No transaction longer than a step: then no step stalls. */
  lemma ShortTxsNeverStall(block: Bytes, front: nat, limit: nat)
    requires Last(Bounds(block, front)) == |block| && front <= limit
    requires forall i :: 0 < i < |Bounds(block, front)| ==>
               Bounds(block, front)[i] <= Bounds(block, front)[i - 1] + limit
    ensures EveryStepEndsATx(block, front, limit)
  {
    hide Bounds;
    var all := Bounds(block, front);
    forall k | 1 <= k && k * limit < |block| ensures StepEndsATx(block, front, limit, k) {
      assert (k + 1) * limit == k * limit + limit;
      assert front <= k * limit by { MulMonotone(1, k, limit); }
      var i := FirstAbove(all, k * limit);
      assert k * limit < all[i] <= (k + 1) * limit;
    }
  }

  lemma {:induction false} FirstAbove(s: seq<nat>, x: nat) returns (i: nat)
    requires s != [] && s[0] <= x < Last(s)
    ensures 0 < i < |s| && s[i - 1] <= x < s[i]
  {
    if x < s[|s| - 2] {
      i := FirstAbove(AllButLast(s), x);
    } else {
      i := |s| - 1;
    }
  }

  lemma {:induction false} PrefixSumSteps(start: nat, txs: seq<Tx>, i: nat)
    requires ValidTxs(txs) && i < |txs|
    ensures PrefixSums(start, txs)[i + 1] == PrefixSums(start, txs)[i] + |txs[i].Encode()|
    decreases i
  {
    hide Tx.Encode, Tx.Valid;
    if i > 0 {
      PrefixSumSteps(start + |txs[0].Encode()|, txs[1..], i - 1);
    } else {
      assert PrefixSums(start, txs)[1..] == PrefixSums(start + |txs[0].Encode()|, txs[1..]);
    }
  }

  /**
   * Streaming refines whole-block parsing: every well-formed block whose header and
   * count, and each of whose transactions, fit one step is accepted with the prefix sums
   * of its transaction lengths as offsets, as the small block handler would report it.
   */
  lemma WellFormedBlockStreams(sha256: Hash, block: Block, limit: nat, after: Bytes)
    requires block.Valid() && block.Front() <= limit
    requires forall i :: 0 <= i < |block.txs| ==> |block.txs[i].Encode()| <= limit
    ensures var raw := block.Encode();
      var big := BigBlockRun(sha256, raw + after, limit, |raw|, Take(sha256(sha256(raw)), 4));
      && big.outcome == Completed && big.consumed == |raw| && big.events != []
      && Last(big.events)
         == BlockDone(Big, sha256(sha256(block.header)), AllButLast(block.Offsets()), |raw|, None)
      && SmallBlockRun(sha256, raw, |raw|).events
         == [BlockDone(Small, sha256(sha256(block.header)), AllButLast(block.Offsets()), |raw|, Some(raw))]
  {
    hide Bounds, Block.Encode, Block.Offsets, EveryStepEndsATx, UnpackVarint, BigBlockRun, Tx.Encode, Tx.Valid;
    var raw := block.Encode();
    BlockBounds(block);
    forall i | 0 < i < |block.Offsets()| ensures block.Offsets()[i] <= block.Offsets()[i - 1] + limit {
      OffsetSteps(block, i - 1);
    }
    ShortTxsNeverStall(raw, block.Front(), limit);
    assert (raw + after)[..|raw|] == raw;
    HeaderBytes(block);
    BigBlockCompletesExactly(sha256, raw + after, limit, |raw|, Checksum(sha256, raw));
    BigBlockAgreesWithSmall(sha256, raw + after, limit, |raw|, Checksum(sha256, raw));
  }

  lemma OffsetSteps(block: Block, i: nat)
    requires block.Valid() && i < |block.txs|
    ensures block.Offsets()[i + 1] == block.Offsets()[i] + |block.txs[i].Encode()|
  {
    hide Tx.Encode, Tx.Valid;
    PrefixSumSteps(block.Front(), block.txs, i);
  }

  lemma HeaderBytes(block: Block)
    requires block.Valid()
    ensures |block.Encode()| >= 80 && block.Encode()[..80] == block.header
  {
    hide EncodeTxs, PackVarintWide, Tx.Valid;
  }

  function Zeros(n: nat): (s: Bytes)
    ensures |s| == n
  {
    seq(n, _ => 0)
  }

  /** A well-formed block of one transaction of 251 bytes. */
  function LongTxBlock(): Block {
    Block(Zeros(80), 0, [Tx(Zeros(4), [TxIn(Zeros(36), Zeros(200), 0, Zeros(4))], 0, [], 0, Zeros(4))])
  }

  /** Steps of 81 bytes cannot split it: the peer is refused although the checksum is right. */
  lemma LongTransactionIsRefused(sha256: Hash)
    ensures var block, raw := LongTxBlock(), LongTxBlock().Encode();
      && block.Valid() && block.Front() == 81 && |raw| == 332
      && SmallBlockRun(sha256, raw, |raw|).outcome == Completed
      && BigBlockRun(sha256, raw, 81, |raw|, Take(sha256(sha256(raw)), 4)).outcome == Misbehaving
  {
    hide Bounds, UnpackVarint, BigBlockRun;
    var block, raw := LongTxBlock(), LongTxBlock().Encode();
    assert EncodeTxs(block.txs[1..]) == [] && EncodeIns(block.txs[0].ins[1..]) == [];
    assert block.Offsets() == [81, 332];
    BlockBounds(block);
    assert !StepEndsATx(raw, 81, 81, 1);
    assert raw[..|raw|] == raw;
    StalledBlockIsRefused(sha256, raw, 81, |raw|, Checksum(sha256, raw));
  }

  // ----- conservation -----

  function Emitted(events: seq<Event>): Bytes {
    if events == [] then [] else
      (if events[0].BlockChunk? then events[0].slice else []) + Emitted(events[1..])
  }

  function EmittedOffsets(events: seq<Event>): seq<nat> {
    if events == [] then [] else
      (if events[0].BlockChunk? then events[0].offsets else []) + EmittedOffsets(events[1..])
  }

  /** One chunk is a slice of the block and of its boundaries. */
  lemma ChunkIsASlice(job: Job, k: nat)
    requires job.Valid() && k > 0 && job.ReadTo(k) <= |job.block|
    ensures job.Started(k - 1) <= job.Started(k) < |Bounds(job.block, job.front)|
    ensures job.Cut(k - 1) <= job.Cut(k)
    ensures job.Chunk(k).slice == job.block[job.Cut(k - 1)..job.Cut(k)]
    ensures job.Chunk(k).offsets == Bounds(job.block, job.front)[job.Started(k - 1)..job.Started(k)]
    ensures k == 1 ==> job.Cut(0) == job.Started(0) == 0
    ensures k > 1 ==> job.Cut(k - 1) == Bounds(job.block, job.front)[job.Started(k - 1)]
    ensures job.Cut(k) == Bounds(job.block, job.front)[job.Started(k)]
  {
    hide Bounds, UpTo;
    job.MarksGrow(k - 1);
    var all, i, j := Bounds(job.block, job.front), job.Started(k - 1), job.Started(k);
    assert job.Marks(k) == all[..j + 1];
    assert job.Marks(k)[i..j] == all[i..j];
    assert job.Offsets(k) == all[i..j];
    if k > 1 {
      var before := job.Marks(k - 1);
      assert before == all[..i + 1];
    }
  }

  /** The events after step `k` emit what lies between the cuts after steps `k` and `m`. */
  ghost predicate Conserved(job: Job, k: nat, m: nat, events: seq<Event>)
    requires job.Valid()
  {
    && job.Cut(k) <= job.Cut(m) <= |job.block|
    && job.Started(k) <= job.Started(m) < |Bounds(job.block, job.front)|
    && Emitted(events) == job.block[job.Cut(k)..job.Cut(m)]
    && EmittedOffsets(events) == Bounds(job.block, job.front)[job.Started(k)..job.Started(m)]
  }

  /** In every run, however it ends, the emitted slices and offsets are those of a prefix of the block. */
  lemma {:induction false} ChunksConserve(job: Job, k: nat)
    requires job.Valid() && job.ReadTo(k) <= |job.block|
    ensures Conserved(job, k, k + |job.Chunks(k).events|, job.Chunks(k).events)
    ensures job.Chunks(k).outcome == Completed ==> job.ReadTo(k + |job.Chunks(k).events|) == job.size
    decreases job.size - job.ReadTo(k)
  {
    hide Bounds, UpTo, Job.Marks, Job.Cut, Job.Started, Job.Stalls, Job.Chunk;
    if job.Chunks(k).events != [] {
      var rest := job.Chunks(k + 1);
      assert job.Chunks(k).events == [job.Chunk(k + 1)] + rest.events;
      ChunksConserve(job, k + 1);
      ConserveStep(job, k, k + 1 + |rest.events|, rest.events);
    } else {
      StartedInRange(job, k);
    }
  }

  lemma ConserveStep(job: Job, k: nat, m: nat, rest: seq<Event>)
    requires job.Valid() && job.ReadTo(k + 1) <= |job.block|
    requires Conserved(job, k + 1, m, rest)
    ensures Conserved(job, k, m, [job.Chunk(k + 1)] + rest)
  {
    hide Bounds, UpTo, Job.Marks, Job.Cut, Job.Started, Job.ReadTo;
    ChunkIsASlice(job, k + 1);
    JoinSlices(job.block, job.Cut(k), job.Cut(k + 1), job.Cut(m));
    JoinSlices(Bounds(job.block, job.front), job.Started(k), job.Started(k + 1), job.Started(m));
    var events := [job.Chunk(k + 1)] + rest;
    assert events[0] == job.Chunk(k + 1) && events[1..] == rest;
  }

  lemma StartedInRange(job: Job, k: nat)
    requires job.Valid() && job.ReadTo(k) <= |job.block|
    ensures job.Started(k) < |Bounds(job.block, job.front)|
  {
    hide Bounds, UpTo;
    if k > 0 {
      ChunkIsASlice(job, k);
    }
  }

  lemma {:induction false} EmittedAppend(a: seq<Event>, done: Event)
    requires done.BlockDone?
    ensures Emitted(a + [done]) == Emitted(a) && EmittedOffsets(a + [done]) == EmittedOffsets(a)
  {
    if a == [] {
      assert Emitted([done]) == [] && EmittedOffsets([done]) == [];
    } else {
      EmittedAppend(a[1..], done);
      assert (a + [done])[1..] == a[1..] + [done];
    }
  }

  /** Concatenating the chunks of an accepted block gives the block; their offsets give all offsets. */
  lemma ChunksRebuildTheBlock(sha256: Hash, bytes: Bytes, limit: nat, size: nat, checksum: Bytes)
    requires BigBlockRun(sha256, bytes, limit, size, checksum).outcome == Completed
    ensures var big := BigBlockRun(sha256, bytes, limit, size, checksum);
      && size <= |bytes| && Emitted(big.events) == bytes[..size]
      && Last(big.events).BlockDone? && EmittedOffsets(big.events) == Last(big.events).offsets
  {
    hide Bounds, UpTo, EveryStepEndsATx, Job.Stalls, Job.ReadTo, Job.Chunks, Job.Chunk, UnpackVarint;
    BigBlockCompletesExactly(sha256, bytes, limit, size, checksum);
    var block, first := bytes[..size], Min(limit, size);
    FrontOfFirst(block, first);
    var job := Job(block, Front(block).value, limit, size, DoubleSha256(sha256, block[..80]));
    assert job.ReadTo(0) == 0 by { ReadToClosed(job, 0); }
    ChunksConserve(job, 0);
    var run := job.Chunks(0);
    WholeMarks(job, |run.events|);
    EmittedAppend(run.events, Last(BigBlockRun(sha256, bytes, limit, size, checksum).events));
  }

  lemma {:induction false} EmittedConcat(a: seq<Event>, b: seq<Event>)
    ensures Emitted(a + b) == Emitted(a) + Emitted(b)
  {
    if a == [] {
      assert a + b == b;
    } else {
      EmittedConcat(a[1..], b);
      assert (a + b)[1..] == a[1..] + b && (a + b)[0] == a[0];
    }
  }

  /** The run after `n` more chunks is what is left of the run. */
  lemma {:induction false} ChunksFrom(job: Job, k: nat, n: nat)
    requires job.Valid() && job.ReadTo(k) <= |job.block| && n <= |job.Chunks(k).events|
    ensures job.ReadTo(k + n) <= |job.block| && job.Chunks(k).events[n..] == job.Chunks(k + n).events
    decreases n
  {
    hide Job.ReadTo, Job.Stalls, Job.Chunk;
    if n > 0 {
      ChunksFrom(job, k + 1, n - 1);
    }
  }

  /** The first `k` chunks are the block up to the `k`-th cut. */
  lemma FirstChunks(job: Job, k: nat)
    requires job.Valid() && job.ReadTo(0) == 0 && k <= |job.Chunks(0).events|
    ensures job.Cut(k) <= |job.block| && Emitted(job.Chunks(0).events[..k]) == job.block[..job.Cut(k)]
    ensures job.ReadTo(k) <= |job.block|
  {
    hide Bounds, UpTo, Job.Marks, Job.Cut, Job.Started, Job.Chunks, Job.ReadTo, Job.Chunk, Emitted, EmittedOffsets;
    var events := job.Chunks(0).events;
    ChunksFrom(job, 0, k);
    ChunksConserve(job, 0);
    ChunksConserve(job, k);
    assert events == events[..k] + events[k..];
    EmittedConcat(events[..k], events[k..]);
    CutsGrow(job, 0);
    var m := job.Cut(|events|);
    assert job.block[..m] == job.block[..job.Cut(k)] + job.block[job.Cut(k)..m];
  }

  /**
   * A chunk holds all it can: the first `k` chunks of an accepted block end at the last
   * boundary among the bytes that have been read by then.
   */
  lemma ChunksHoldAllTheyCan(sha256: Hash, bytes: Bytes, limit: nat, size: nat, checksum: Bytes, k: nat)
    requires BigBlockRun(sha256, bytes, limit, size, checksum).outcome == Completed
    requires 1 <= k < |BigBlockRun(sha256, bytes, limit, size, checksum).events|
    ensures size <= |bytes| && Front(bytes[..size]).Some?
    ensures var bounds := Bounds(bytes[..size], Front(bytes[..size]).value);
      var end := |Emitted(BigBlockRun(sha256, bytes, limit, size, checksum).events[..k])|;
      && end in bounds && end <= k * limit
      && forall i :: 0 <= i < |bounds| && bounds[i] <= k * limit ==> bounds[i] <= end
  {
    hide Bounds, UpTo, EveryStepEndsATx, Job.Stalls, Job.ReadTo, Job.Chunks, Job.Chunk, UnpackVarint, Emitted;
    BigBlockCompletesExactly(sha256, bytes, limit, size, checksum);
    var block, first := bytes[..size], Min(limit, size);
    FrontOfFirst(block, first);
    var job := Job(block, Front(block).value, limit, size, DoubleSha256(sha256, block[..80]));
    assert job.ReadTo(0) == 0 by { ReadToClosed(job, 0); }
    var events := BigBlockRun(sha256, bytes, limit, size, checksum).events;
    assert events[..k] == job.Chunks(0).events[..k];
    FirstChunks(job, k);
    ReadToClosed(job, k);
    LastCut(job, k);
    BoundsAdvance(block, job.front);
    var bounds := Bounds(block, job.front);
    assert forall i :: 0 <= i < |bounds| ==> bounds[i] <= Last(bounds) <= size;
  }

  lemma LastCut(job: Job, k: nat)
    requires job.Valid() && k > 0
    ensures var bounds := Bounds(job.block, job.front);
      && job.Cut(k) in bounds
      && forall i :: 0 <= i < |bounds| && bounds[i] <= job.ReadTo(k) ==> bounds[i] <= job.Cut(k)
  {
    hide Bounds, UpTo, Job.ReadTo;
    var all, marks := Bounds(job.block, job.front), job.Marks(k);
    BoundsAdvance(job.block, job.front);
    assert all[|marks| - 1] == Last(marks);
  }

  /**
   * Each chunk can be processed on its own: scanned alone, from the front in chunk 1 and
   * from its first byte in later ones, it shows exactly its transactions, up to its end.
   * Every chunk after the first holds at least one.
   */
  lemma ChunkStandsAlone(job: Job, k: nat)
    requires job.Valid() && k > 0 && job.ReadTo(k) <= |job.block|
    ensures var chunk := job.Chunk(k);
      var alone := Bounds(chunk.slice, if k == 1 then job.front else 0);
      && Shift(AllButLast(alone), job.Cut(k - 1)) == chunk.offsets
      && Last(alone) == |chunk.slice|
      && (k > 1 && !job.Stalls(k) ==> chunk.offsets != [] && chunk.offsets[0] == job.Cut(k - 1))
  {
    hide Bounds, UpTo, Shift, Job.Marks, Job.Cut, Job.Started, Job.ReadTo;
    var a, r, o := job.Cut(k - 1), job.Cut(k), if k == 1 then job.front else 0;
    var all, i, j := Bounds(job.block, job.front), job.Started(k - 1), job.Started(k);
    ChunkIsASlice(job, k);
    BoundsBetween(job.block, job.front, i, j, a, o);
    var alone := Bounds(job.Chunk(k).slice, o);
    assert all[i..j + 1] == all[i..j] + [r];
    ShiftLast(alone, a);
    assert AllButLast(all[i..j + 1]) == all[i..j];
    if k > 1 && !job.Stalls(k) {
      assert i != j;
    }
  }

  lemma BoundsBetween(b: Bytes, front: nat, i: nat, j: nat, a: nat, o: nat)
    requires i <= j < |Bounds(b, front)| && a + o == Bounds(b, front)[i]
    requires Bounds(b, front)[j] <= |b|
    ensures a <= Bounds(b, front)[j]
    ensures Shift(Bounds(b[a..Bounds(b, front)[j]], o), a) == Bounds(b, front)[i..j + 1]
  {
    hide Bounds, UpTo, Shift;
    var all := Bounds(b, front);
    BoundsAdvance(b, front);
    BoundsSuffix(b, front, i);
    BoundsWindow(b, a, all[j], o);
    assert all[i..][j - i] == all[j];
    UpToElement(all[i..], j - i);
    assert all[i..][..j - i + 1] == all[i..j + 1];
  }

  lemma {:induction false} UpToElement(s: seq<nat>, i: nat)
    requires Increasing(s) && i < |s|
    ensures UpTo(s, s[i]) == s[..i + 1]
  {
    UpToSplit(s, i + 1, s[i]);
  }
}
