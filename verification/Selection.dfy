/** Round-robin selection from the pool of connected clients, and broadcasts that use it. */
module Selection {
  import opened ByteStrings
  import opened Pools

  /** `select_next_available_peer`. */
  function NextIndex(size: nat, index: nat): nat {
    if index == size - 1 then 0 else index + 1
  }

  /** The index after `m` selections from a pool that does not change. */
  function IndexAfter(size: nat, index: nat, m: nat): nat {
    if m == 0 then index else NextIndex(size, IndexAfter(size, index, m - 1))
  }

  /** From an index in range the selections go round the pool. */
  lemma {:induction false} GoesRound(size: nat, index: nat, m: nat)
    requires index < size
    ensures IndexAfter(size, index, m) < size
    ensures m <= size ==> IndexAfter(size, index, m) == if index + m < size then index + m else index + m - size
  {
    if m > 0 {
      GoesRound(size, index, m - 1);
    }
  }

  /** The clients of `m` selections in a row. */
  ghost function Targets(pool: seq<nat>, index: nat, m: nat): seq<nat>
    requires index < |pool|
  {
    seq(m, i requires 0 <= i < m => GoesRound(|pool|, index, i + 1); pool[IndexAfter(|pool|, index, i + 1)])
  }

  lemma TargetsAppend(pool: seq<nat>, index: nat, m: nat)
    requires index < |pool|
    ensures IndexAfter(|pool|, index, m + 1) < |pool|
    ensures Targets(pool, index, m + 1) == Targets(pool, index, m) + [pool[IndexAfter(|pool|, index, m + 1)]]
  {
    GoesRound(|pool|, index, m + 1);
  }

  /**
   * The selected clients are those after the index, in the order of the pool and round it. In
   * a pool without duplicates of at least `m` clients they are all different.
   */
  lemma TargetsAreDistinct(pool: seq<nat>, index: nat, m: nat)
    requires Distinct(pool) && index < |pool| && m <= |pool|
    ensures forall i :: 0 <= i < m ==>
              var at := index + i + 1;
              Targets(pool, index, m)[i] == pool[if at < |pool| then at else at - |pool|]
    ensures Distinct(Targets(pool, index, m))
    ensures m == |pool| ==> forall c :: c in pool <==> c in Targets(pool, index, m)
  {
    hide IndexAfter;
    var targets := Targets(pool, index, m);
    forall i | 0 <= i < m
      ensures targets[i] == pool[if index + i + 1 < |pool| then index + i + 1 else index + i + 1 - |pool|]
    {
      GoesRound(|pool|, index, i + 1);
    }
    forall k | m == |pool| && 0 <= k < |pool| ensures pool[k] in targets {
      var i := if k > index then k - index - 1 else k - index - 1 + |pool|;
      assert targets[i] == pool[k];
    }
  }

  // ----- runs of selections, additions and removals -----

  datatype Op = Select | Add(client: nat) | Remove(client: nat)

  /** `failed` records that some selection raised an IndexError. */
  datatype Selector = Selector(pool: seq<nat>, index: nat, failed: bool)

  function Apply(s: Selector, op: Op): Selector {
    match op
    case Select =>
      if s.pool == [] then s  // the caller waits
      else
        var next := NextIndex(|s.pool|, s.index);
        Selector(s.pool, next, s.failed || next >= |s.pool|)
    case Add(c) => s.(pool := Joined(s.pool, c))
    case Remove(c) => s.(pool := RemoveFirst(s.pool, c))
  }

  function ApplyAll(s: Selector, ops: seq<Op>): Selector
    decreases |ops|
  {
    if ops == [] then s else ApplyAll(Apply(s, ops[0]), ops[1..])
  }

  /** The index is in range, or the pool has been empty so far and the index is still 0. */
  predicate InRange(s: Selector) {
    s.index < |s.pool| || (s.pool == [] && s.index == 0)
  }

  /** Over any run of selections and additions the index stays in range and no selection fails. */
  lemma {:induction false} IndexStaysInRange(s: Selector, ops: seq<Op>)
    requires InRange(s) && !s.failed && forall i :: 0 <= i < |ops| ==> !ops[i].Remove?
    ensures InRange(ApplyAll(s, ops)) && !ApplyAll(s, ops).failed
    decreases |ops|
  {
    if ops != [] {
      IndexStaysInRange(Apply(s, ops[0]), ops[1..]);
    }
  }

  /**
   * Once the index is out of range (removals do not clamp it) every selection fails and
   * leaves it out of range, however many follow, until clients are added.
   */
  lemma {:induction false} StaleIndexStaysStale(s: Selector, ops: seq<Op>)
    requires s.pool != [] && s.index >= |s.pool| && ops != [] && forall i :: 0 <= i < |ops| ==> ops[i].Select?
    ensures var after := ApplyAll(s, ops); after.failed && after.pool == s.pool && after.index == s.index + |ops|
    decreases |ops|
  {
    var next := Apply(s, ops[0]);
    if |ops| > 1 {
      StaleIndexStaysStale(next, ops[1..]);
    } else {
      assert ops[1..] == [];
    }
  }

  /** One removal is enough. */
  lemma RemovalMakesStale()
    ensures var s := Selector([7, 8], 1, false);
      InRange(s) && !InRange(Apply(s, Remove(7))) && ApplyAll(s, [Remove(7), Select]).failed
  {
    var s := Selector([7, 8], 1, false);
    assert RemoveFirst([7, 8], 7) == [8];
    assert [Remove(7), Select][1..] == [Select] && [Select][1..] == [];
    assert ApplyAll(Apply(s, Remove(7)), [Select]).failed;
  }
}
