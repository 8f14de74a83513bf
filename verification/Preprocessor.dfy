/**
 * The transaction boundary scanner: `skip_one_tx` and `tx_preprocessor`.
 * A transaction is skipped without being parsed; running off the end of the buffer,
 * by an exception or by an offset beyond it, means that more bytes are needed.
 */
module Preprocessor {
  import opened ByteStrings

  // ----- what one skip computes -----

  /** Skips `n` transaction inputs. */
  function SkipInputs(buf: Bytes, n: nat, offset: nat): (r: Option<nat>)
    ensures r.Some? ==> r.value >= offset + 41 * n
  {
    if n == 0 then Some(offset)
    else
      match UnpackVarint(buf, offset + 36)
      case None => None
      case Some(script) => SkipInputs(buf, n - 1, script.next + script.value + 4)
  }

  /** Skips `n` transaction outputs. */
  function SkipOutputs(buf: Bytes, n: nat, offset: nat): (r: Option<nat>)
    ensures r.Some? ==> r.value >= offset + 9 * n
  {
    if n == 0 then Some(offset)
    else
      match UnpackVarint(buf, offset + 8)
      case None => None
      case Some(script) => SkipOutputs(buf, n - 1, script.next + script.value)
  }

  /** Skips a counted list of inputs. */
  function SkipInputList(buf: Bytes, offset: nat): (r: Option<nat>)
    ensures r.Some? ==> r.value > offset
  {
    match UnpackVarint(buf, offset)
    case None => None
    case Some(count) => SkipInputs(buf, count.value, count.next)
  }

  /** Skips a counted list of outputs. */
  function SkipOutputList(buf: Bytes, offset: nat): (r: Option<nat>)
    ensures r.Some? ==> r.value > offset
  {
    match UnpackVarint(buf, offset)
    case None => None
    case Some(count) => SkipOutputs(buf, count.value, count.next)
  }

  /** Where the transaction at `offset` ends, possibly beyond the buffer; `None` if a read raises. */
  function SkipTx(buf: Bytes, offset: nat): (r: Option<nat>)
    ensures r.Some? ==> r.value >= offset + 10
  {
    match SkipInputList(buf, offset + 4)
    case None => None
    case Some(afterIns) =>
      match SkipOutputList(buf, afterIns)
      case None => None
      case Some(afterOuts) => Some(afterOuts + 4)
  }

  /**
   * The loops of `skip_one_tx`. `steps` counts their iterations: however large the
   * counts in the buffer claim to be, it is linear in the bytes there are.
   */
  method SkipOneTx(buffer: Bytes, start: nat) returns (r: Option<nat>, ghost steps: nat)
    ensures r == SkipTx(buffer, start)
    ensures start <= |buffer| ==> 9 * steps <= |buffer| - start + 9
    ensures r.Some? ==> 9 * steps <= r.value - start
  {
    hide UnpackVarint;
    steps := 0;
    var offset := start + 4;
    var countIn := UnpackVarint(buffer, offset);
    if countIn.None? {
      return None, steps;
    }
    offset := countIn.value.next;
    for i := 0 to countIn.value.value
      invariant offset >= start + 5 + 9 * steps
      invariant steps > 0 ==> start + 9 * steps <= |buffer|
      invariant SkipInputs(buffer, countIn.value.value - i, offset)
             == SkipInputs(buffer, countIn.value.value, countIn.value.next)
    {
      steps := steps + 1;
      offset := offset + 36;
      var script := UnpackVarint(buffer, offset);
      if script.None? {
        return None, steps;
      }
      offset := script.value.next + script.value.value;
      offset := offset + 4;
    }
    var countOut := UnpackVarint(buffer, offset);
    if countOut.None? {
      return None, steps;
    }
    offset := countOut.value.next;
    for i := 0 to countOut.value.value
      invariant offset >= start + 5 + 9 * steps
      invariant steps > 0 ==> start + 9 * steps <= |buffer|
      invariant SkipOutputs(buffer, countOut.value.value - i, offset)
             == SkipOutputs(buffer, countOut.value.value, countOut.value.next)
    {
      steps := steps + 1;
      offset := offset + 8;
      var script := UnpackVarint(buffer, offset);
      if script.None? {
        return None, steps;
      }
      offset := script.value.next + script.value.value;
    }
    offset := offset + 4;
    return Some(offset), steps;
  }

  // ----- windows: truncation and dropped prefixes -----

  /** `r` is the short buffer's result moved to the long one, or the place where the window ends. */
  ghost predicate Shifted(short: Option<nat>, long: Option<nat>, b: Bytes, a: nat, r: nat) {
    && (short.Some? ==> long == Some(a + short.value))
    && (long.Some? && (long.value <= r || r == |b|) ==> long.value >= a && short == Some(long.value - a))
  }

  lemma {:induction false} InputsWindow(b: Bytes, a: nat, r: nat, n: nat, o: nat)
    requires a <= r <= |b|
    ensures Shifted(SkipInputs(b[a..r], n, o), SkipInputs(b, n, a + o), b, a, r)
  {
    if n > 0 {
      VarintWindow(b, a, r, o + 36);
      var long := UnpackVarint(b, a + o + 36);
      if long.Some? && long.value.next <= r {
        InputsWindow(b, a, r, n - 1, long.value.next - a + long.value.value + 4);
      }
    }
  }

  lemma {:induction false} OutputsWindow(b: Bytes, a: nat, r: nat, n: nat, o: nat)
    requires a <= r <= |b|
    ensures Shifted(SkipOutputs(b[a..r], n, o), SkipOutputs(b, n, a + o), b, a, r)
  {
    if n > 0 {
      VarintWindow(b, a, r, o + 8);
      var long := UnpackVarint(b, a + o + 8);
      if long.Some? && long.value.next <= r {
        OutputsWindow(b, a, r, n - 1, long.value.next - a + long.value.value);
      }
    }
  }

  lemma InputListWindow(b: Bytes, a: nat, r: nat, o: nat)
    requires a <= r <= |b|
    ensures Shifted(SkipInputList(b[a..r], o), SkipInputList(b, a + o), b, a, r)
  {
    VarintWindow(b, a, r, o);
    var long := UnpackVarint(b, a + o);
    if long.Some? && long.value.next <= r {
      InputsWindow(b, a, r, long.value.value, long.value.next - a);
    }
  }

  lemma OutputListWindow(b: Bytes, a: nat, r: nat, o: nat)
    requires a <= r <= |b|
    ensures Shifted(SkipOutputList(b[a..r], o), SkipOutputList(b, a + o), b, a, r)
  {
    VarintWindow(b, a, r, o);
    var long := UnpackVarint(b, a + o);
    if long.Some? && long.value.next <= r {
      OutputsWindow(b, a, r, long.value.value, long.value.next - a);
    }
  }

  /**
   * Scanning a window of a buffer is scanning the buffer: a result that does not raise
   * is never changed by the bytes around the window, and a transaction that ends inside
   * the window (or any, when nothing was cut off the end) is found there.
   */
  lemma SkipTxWindow(b: Bytes, a: nat, r: nat, o: nat)
    requires a <= r <= |b|
    ensures Shifted(SkipTx(b[a..r], o), SkipTx(b, a + o), b, a, r)
  {
    hide SkipInputList, SkipOutputList;
    InputListWindow(b, a, r, o + 4);
    var long := SkipInputList(b, a + o + 4);
    if long.Some? && (long.value <= r || r == |b|) {
      OutputListWindow(b, a, r, long.value - a);
    }
    var short := SkipInputList(b[a..r], o + 4);
    if short.Some? {
      OutputListWindow(b, a, r, short.value);
    }
  }

  /** Truncation alone: the first `|p|` bytes of a longer buffer. */
  lemma SkipTxTruncated(p: Bytes, more: Bytes, o: nat)
    ensures SkipTx(p, o).Some? ==> SkipTx(p + more, o) == SkipTx(p, o)
    ensures forall e: nat :: e <= |p| ==> (SkipTx(p, o) == Some(e) <==> SkipTx(p + more, o) == Some(e))
  {
    assert (p + more)[0..|p|] == p;
    SkipTxWindow(p + more, 0, |p|, o);
  }

  /** A dropped prefix alone. */
  lemma SkipTxDropped(front: Bytes, p: Bytes, o: nat)
    ensures SkipTx(front + p, |front| + o) ==
      match SkipTx(p, o) case None => None case Some(e) => Some(|front| + e)
  {
    assert (front + p)[|front|..|front + p|] == p;
    SkipTxWindow(front + p, |front|, |front + p|, o);
  }

  // ----- all boundaries of a buffer -----

  /** `o` and the end of every transaction that a scan from `o` completes within the buffer. */
  function Bounds(b: Bytes, o: nat): (s: seq<nat>)
    ensures |s| > 0 && s[0] == o
    ensures Last(s) <= if o <= |b| then |b| else o
    decreases if o <= |b| then |b| - o else 0
  {
    match SkipTx(b, o)
    case Some(e) => if e <= |b| then [o] + Bounds(b, e) else [o]
    case None => [o]
  }

  predicate Increasing(s: seq<nat>) {
    forall i, j :: 0 <= i < j < |s| ==> s[i] < s[j]
  }

  /** Every accepted transaction is at least ten bytes long. */
  lemma {:induction false} BoundsAdvance(b: Bytes, o: nat)
    ensures forall i, j :: 0 <= i < j < |Bounds(b, o)| ==> Bounds(b, o)[i] + 10 <= Bounds(b, o)[j]
    ensures Increasing(Bounds(b, o))
    decreases if o <= |b| then |b| - o else 0
  {
    hide SkipTx;
    var next := SkipTx(b, o);
    if next.Some? && next.value <= |b| {
      BoundsAdvance(b, next.value);
    }
  }

  function Shift(s: seq<nat>, d: nat): (t: seq<nat>)
    ensures |t| == |s|
  {
    seq(|s|, i requires 0 <= i < |s| => s[i] + d)
  }

  lemma ShiftAppend(s: seq<nat>, t: seq<nat>, d: nat)
    ensures Shift(s + t, d) == Shift(s, d) + Shift(t, d)
  {
  }

  lemma ShiftOne(x: nat, d: nat)
    ensures Shift([x], d) == [x + d]
  {
  }

  lemma ShiftLast(s: seq<nat>, d: nat)
    requires s != []
    ensures AllButLast(Shift(s, d)) == Shift(AllButLast(s), d)
    ensures Last(Shift(s, d)) == Last(s) + d
  {
  }

  /** The part of an increasing sequence that is at most `r`. */
  function UpTo(s: seq<nat>, r: nat): (t: seq<nat>)
    ensures |t| <= |s| && t == s[..|t|]
    ensures forall k :: 0 <= k < |t| ==> t[k] <= r
    ensures |t| < |s| ==> s[|t|] > r
  {
    if s == [] || s[0] > r then [] else [s[0]] + UpTo(s[1..], r)
  }

  /** Scanning a window finds exactly the whole buffer's boundaries up to its end. */
  lemma {:induction false} BoundsWindow(b: Bytes, a: nat, r: nat, o: nat)
    requires a + o <= r <= |b|
    ensures Shift(Bounds(b[a..r], o), a) == UpTo(Bounds(b, a + o), r)
    decreases |b| - o
  {
    hide SkipTx, Shift;
    SkipTxWindow(b, a, r, o);
    var short, long := SkipTx(b[a..r], o), SkipTx(b, a + o);
    if short.Some? && short.value <= r - a {
      BoundsWindow(b, a, r, short.value);
      ShiftAppend([o], Bounds(b[a..r], short.value), a);
      ShiftOne(o, a);
      assert Bounds(b, a + o)[1..] == Bounds(b, a + short.value);
    } else if long.Some? && long.value <= |b| {
      assert Bounds(b, a + o)[1..] == Bounds(b, long.value);
      assert Bounds(b[a..r], o) == [o];
      ShiftOne(o, a);
    } else {
      ShiftOne(o, a);
    }
  }

  lemma {:induction false} BoundsSuffix(b: Bytes, o: nat, i: nat)
    requires i < |Bounds(b, o)|
    ensures Bounds(b, o)[i..] == Bounds(b, Bounds(b, o)[i])
    decreases i
  {
    hide SkipTx;
    if i > 0 {
      var next := SkipTx(b, o).value;
      assert Bounds(b, o)[1..] == Bounds(b, next);
      BoundsSuffix(b, next, i - 1);
      assert Bounds(b, o)[i..] == Bounds(b, next)[i - 1..];
    }
  }

  lemma {:induction false} UpToSplit(s: seq<nat>, i: nat, r: nat)
    requires i <= |s| && forall k :: 0 <= k < i ==> s[k] <= r
    ensures UpTo(s, r) == s[..i] + UpTo(s[i..], r)
  {
    hide UpTo;
    if i > 0 {
      var t, rest := s[1..], UpTo(s[i..], r);
      UpToSplit(t, i - 1, r);
      assert t[i - 1..] == s[i..];
      UpToFirst(s, r);
      assert [s[0]] + (t[..i - 1] + rest) == s[..i] + rest;
    } else {
      assert s[0..] == s;
    }
  }

  lemma UpToFirst(s: seq<nat>, r: nat)
    requires s != [] && s[0] <= r
    ensures UpTo(s, r) == [s[0]] + UpTo(s[1..], r)
  {
  }

  /** A scan resumed at the last boundary it found continues where it stopped. */
  lemma BoundsResume(b: Bytes, o: nat, r: nat, q: nat)
    requires o <= r <= q
    ensures var done := UpTo(Bounds(b, o), r);
            && |done| > 0 && o <= Last(done) <= r
            && Bounds(b, Last(done)) == Bounds(b, o)[|done| - 1..]
            && UpTo(Bounds(b, o), q) == AllButLast(done) + UpTo(Bounds(b, Last(done)), q)
  {
    hide Bounds, UpTo;
    var s := Bounds(b, o);
    var done := UpTo(s, r);
    BoundsAdvance(b, o);
    BoundsSuffix(b, o, |done| - 1);
    assert forall k :: 0 <= k < |done| ==> s[k] == done[k];
    assert s[..|done| - 1] == AllButLast(done);
    UpToSplit(s, |done| - 1, q);
  }

  /**
   * `tx_preprocessor`. When no transaction completes, the second result is `offset`
   * itself, without the adjustment.
   */
  method TxPreprocessor(buffer: Bytes, start: nat, adjustment: nat)
    returns (txOffsets: seq<nat>, last: nat, ghost steps: nat)
    ensures txOffsets == Shift(AllButLast(Bounds(buffer, start)), adjustment)
    ensures last == if txOffsets == [] then start else Last(Bounds(buffer, start)) + adjustment
    ensures start <= |buffer| ==> 9 * steps <= |buffer| - start + 9
  {
    hide SkipTx, Shift, Bounds;
    steps := 0;
    var offset := start;
    ShiftOne(start, adjustment);
    txOffsets := [offset + adjustment];
    last := offset;
    ghost var found: seq<nat> := [start];
    assert AllButLast(found) + Bounds(buffer, offset) == Bounds(buffer, start);
    while true
      invariant found != [] && Last(found) == offset
      invariant txOffsets == Shift(found, adjustment)
      invariant last == if |found| == 1 then start else offset + adjustment
      invariant AllButLast(found) + Bounds(buffer, offset) == Bounds(buffer, start)
      invariant start <= |buffer| ==> start <= offset <= |buffer| && 9 * steps <= offset - start
      decreases if offset <= |buffer| then |buffer| - offset + 1 else 0
    {
      var next, more := SkipOneTx(buffer, offset);
      steps := steps + more;
      if next.None? || next.value > |buffer| {
        break;
      }
      FoundOneMore(buffer, start, found, next.value);
      ShiftAppend(found, [next.value], adjustment);
      ShiftOne(next.value, adjustment);
      offset := next.value;
      last := offset + adjustment;
      txOffsets := txOffsets + [offset + adjustment];
      found := found + [offset];
    }
    FoundAll(buffer, start, found);
    ShiftLast(found, adjustment);
    txOffsets := txOffsets[..|txOffsets| - 1];
  }

  lemma FoundOneMore(b: Bytes, start: nat, found: seq<nat>, next: nat)
    requires found != [] && SkipTx(b, Last(found)) == Some(next) && next <= |b|
    requires AllButLast(found) + Bounds(b, Last(found)) == Bounds(b, start)
    ensures AllButLast(found + [next]) + Bounds(b, next) == Bounds(b, start)
  {
    hide SkipTx;
    var o := Last(found);
    assert AllButLast(found + [next]) == found == AllButLast(found) + [o];
    assert (AllButLast(found) + [o]) + Bounds(b, next) == AllButLast(found) + ([o] + Bounds(b, next));
  }

  lemma FoundAll(b: Bytes, start: nat, found: seq<nat>)
    requires found != [] && AllButLast(found) + Bounds(b, Last(found)) == Bounds(b, start)
    requires SkipTx(b, Last(found)).None? || SkipTx(b, Last(found)).value > |b|
    ensures found == Bounds(b, start)
  {
    hide SkipTx;
    assert found == AllButLast(found) + [Last(found)];
  }
}
