/**
 * Work handed from a lost client to another one: reallocation tasks, cut at their await
 * points, over bounded queues that any number of them share.
 */
module Reallocation {
  import opened ByteStrings
  import opened Pools
  import opened Selection

  /** A getdata request. */
  type Item = Bytes

  const QUEUE_SIZE := 100

  /** `origin` is what the task drained from client `source`; `pending` is what it has not put yet. */
  datatype Task = Task(source: nat, origin: seq<Item>, pending: seq<Item>, target: Option<nat>, crashed: bool)

  datatype Put = Put(task: nat, client: nat, item: Item)

  /** `queues[c]` is the queue of client `c`; `log` lists all puts, oldest first. */
  datatype WorkState = WorkState(queues: seq<seq<Item>>, pool: seq<nat>, index: nat, tasks: seq<Task>, log: seq<Put>)

  datatype WorkStep =
    | Drain(client: nat)
    | Pick(task: nat)
    | Deliver(task: nat)
    | Interrupt(task: nat)
    | Connect(client: nat)
    | Disconnect(client: nat)
    | Broadcast

  /** `Broadcast` is a selection by anyone else: all users share one index. */
  predicate Enabled(s: WorkState, step: WorkStep) {
    match step
    case Drain(c) => c < |s.queues|
    case Pick(t) => t < |s.tasks| && s.tasks[t].target.None? && !s.tasks[t].crashed && s.pool != []
    case Deliver(_) | Interrupt(_) =>
      var t := step.task;
      && t < |s.tasks| && !s.tasks[t].crashed && s.tasks[t].target.Some? && s.tasks[t].pending != []
      && s.tasks[t].target.value < |s.queues| && |s.queues[s.tasks[t].target.value]| < QUEUE_SIZE
    case Connect(c) => c < |s.queues| && c !in s.pool
    case Disconnect(c) => c in s.pool
    case Broadcast => s.pool != []
  }

  /** A put, after which sending a getblocks message may fail and end the task. */
  function PutNext(s: WorkState, t: nat, crashed: bool): WorkState
    requires Enabled(s, Deliver(t))
  {
    var task := s.tasks[t];
    var c := task.target.value;
    s.(queues := s.queues[c := s.queues[c] + [task.pending[0]]],
       tasks := s.tasks[t := task.(pending := task.pending[1..], crashed := crashed)],
       log := s.log + [Put(t, c, task.pending[0])])
  }

  function Next(s: WorkState, step: WorkStep): WorkState
    requires Enabled(s, step)
  {
    match step
    case Drain(c) =>
      s.(queues := s.queues[c := []], tasks := s.tasks + [Task(c, s.queues[c], s.queues[c], None, false)])
    case Pick(t) =>
      var next := NextIndex(|s.pool|, s.index);
      if next < |s.pool| then s.(index := next, tasks := s.tasks[t := s.tasks[t].(target := Some(s.pool[next]))])
      else s.(index := next, tasks := s.tasks[t := s.tasks[t].(crashed := true)])
    case Deliver(t) => PutNext(s, t, false)
    case Interrupt(t) => PutNext(s, t, true)
    case Connect(c) => s.(pool := Joined(s.pool, c))
    case Disconnect(c) => s.(pool := RemoveFirst(s.pool, c))
    case Broadcast => s.(index := NextIndex(|s.pool|, s.index))
  }

  function Exec(s: WorkState, steps: seq<WorkStep>): WorkState
    decreases |steps|
  {
    if steps == [] then s
    else Exec(if Enabled(s, steps[0]) then Next(s, steps[0]) else s, steps[1..])
  }

  // ----- where the items are -----

  function Total(parts: seq<seq<Item>>): multiset<Item> {
    if parts == [] then multiset{} else multiset(parts[0]) + Total(parts[1..])
  }

  function Pending(tasks: seq<Task>): seq<seq<Item>> {
    seq(|tasks|, i requires 0 <= i < |tasks| => tasks[i].pending)
  }

  /** What tasks that can still deliver hold. */
  function Held(tasks: seq<Task>): seq<seq<Item>> {
    seq(|tasks|, i requires 0 <= i < |tasks| => if tasks[i].crashed then [] else tasks[i].pending)
  }

  /** All items, whoever has them. */
  function AllItems(s: WorkState): multiset<Item> {
    Total(s.queues) + Total(Pending(s.tasks))
  }

  /** All items but those of crashed tasks. */
  function LiveItems(s: WorkState): multiset<Item> {
    Total(s.queues) + Total(Held(s.tasks))
  }

  lemma {:induction false} TotalUpdate(parts: seq<seq<Item>>, i: nat, part: seq<Item>)
    requires i < |parts|
    ensures Total(parts[i := part]) + multiset(parts[i]) == Total(parts) + multiset(part)
  {
    if i > 0 {
      TotalUpdate(parts[1..], i - 1, part);
      assert parts[i := part][1..] == parts[1..][i - 1 := part];
      var head, tail := multiset(parts[0]), Total(parts[1..]);
      assert Total(parts[i := part]) + multiset(parts[i])
          == head + (Total(parts[1..][i - 1 := part]) + multiset(parts[i]))
          == head + (tail + multiset(part));
    } else {
      assert parts[0 := part][1..] == parts[1..];
      assert Total(parts[0 := part]) + multiset(parts[0]) == Total(parts[1..]) + multiset(part) + multiset(parts[0]);
    }
  }

  lemma {:induction false} TotalAppend(parts: seq<seq<Item>>, part: seq<Item>)
    ensures Total(parts + [part]) == Total(parts) + multiset(part)
  {
    if parts == [] {
      assert [part][1..] == [];
      assert Total([part]) == multiset(part) + Total([]);
      assert parts + [part] == [part];
    } else {
      TotalAppend(parts[1..], part);
      assert (parts + [part])[1..] == parts[1..] + [part];
    }
  }

  /** What one side gives and the other takes leaves their sum unchanged. */
  lemma SameSum(a: multiset<Item>, a': multiset<Item>, b: multiset<Item>, b': multiset<Item>,
                x: multiset<Item>, y: multiset<Item>)
    requires a' + x == a + y && b' + y == b + x
    ensures a' + b' == a + b
  {
    forall o ensures (a' + b')[o] == (a + b)[o] {
      assert (a' + x)[o] == (a + y)[o] && (b' + y)[o] == (b + x)[o];
    }
  }

  lemma DrainKeepsItems(s: WorkState, c: nat)
    requires c < |s.queues|
    ensures AllItems(Next(s, Drain(c))) == AllItems(s) && LiveItems(Next(s, Drain(c))) == LiveItems(s)
  {
    hide Total;
    var after := Next(s, Drain(c));
    TotalUpdate(s.queues, c, []);
    TotalAppend(Pending(s.tasks), s.queues[c]);
    TotalAppend(Held(s.tasks), s.queues[c]);
    assert Pending(after.tasks) == Pending(s.tasks) + [s.queues[c]];
    assert Held(after.tasks) == Held(s.tasks) + [s.queues[c]];
    var x, y := multiset(s.queues[c]), multiset([]);
    SameSum(Total(s.queues), Total(after.queues), Total(Pending(s.tasks)), Total(Pending(after.tasks)), x, y);
    SameSum(Total(s.queues), Total(after.queues), Total(Held(s.tasks)), Total(Held(after.tasks)), x, y);
  }

  lemma DeliverKeepsItems(s: WorkState, t: nat)
    requires Enabled(s, Deliver(t))
    ensures AllItems(PutNext(s, t, false)) == AllItems(s) && LiveItems(PutNext(s, t, false)) == LiveItems(s)
  {
    hide Total;
    var after, task := PutNext(s, t, false), s.tasks[t];
    var c := task.target.value;
    TotalUpdate(s.queues, c, s.queues[c] + [task.pending[0]]);
    TotalUpdate(Pending(s.tasks), t, task.pending[1..]);
    TotalUpdate(Held(s.tasks), t, task.pending[1..]);
    assert Pending(after.tasks) == Pending(s.tasks)[t := task.pending[1..]];
    assert Held(after.tasks) == Held(s.tasks)[t := task.pending[1..]];
    assert task.pending == [task.pending[0]] + task.pending[1..];
    Moved(Total(s.queues), Total(after.queues), Total(Pending(s.tasks)), Total(Pending(after.tasks)),
          multiset(s.queues[c]), multiset(task.pending[1..]), multiset{task.pending[0]});
    Moved(Total(s.queues), Total(after.queues), Total(Held(s.tasks)), Total(Held(after.tasks)),
          multiset(s.queues[c]), multiset(task.pending[1..]), multiset{task.pending[0]});
  }

  /** A crash loses what the task holds, and moves nothing. */
  lemma CrashKeepsItems(s: WorkState, t: nat, after: WorkState)
    requires t < |s.tasks| && !s.tasks[t].crashed
    requires after.queues == s.queues && after.tasks == s.tasks[t := s.tasks[t].(crashed := true)]
    ensures AllItems(after) == AllItems(s)
    ensures LiveItems(after) + multiset(s.tasks[t].pending) == LiveItems(s)
  {
    hide Total;
    assert Pending(after.tasks) == Pending(s.tasks);
    TotalUpdate(Held(s.tasks), t, []);
    assert Held(after.tasks) == Held(s.tasks)[t := []];
    assert s.tasks[t].pending == Held(s.tasks)[t];
    assert Total(Held(after.tasks)) + multiset(s.tasks[t].pending) == Total(Held(s.tasks)) + multiset([]);
    assert LiveItems(after) + multiset(s.tasks[t].pending)
        == Total(s.queues) + (Total(Held(after.tasks)) + multiset(s.tasks[t].pending));
  }

  lemma InterruptKeepsItems(s: WorkState, t: nat)
    requires Enabled(s, Interrupt(t))
    ensures AllItems(PutNext(s, t, true)) == AllItems(s)
    ensures LiveItems(PutNext(s, t, true)) + multiset(s.tasks[t].pending[1..]) == LiveItems(s)
  {
    hide AllItems, LiveItems;
    DeliverKeepsItems(s, t);
    var put := PutNext(s, t, false);
    CrashKeepsItems(put, t, PutNext(s, t, true));
  }

  /** One item goes from the end of a task's list to a queue. */
  lemma Moved(a: multiset<Item>, a': multiset<Item>, b: multiset<Item>, b': multiset<Item>,
              queue: multiset<Item>, rest: multiset<Item>, one: multiset<Item>)
    requires a' + queue == a + (queue + one) && b' + (one + rest) == b + rest
    ensures a' + b' == a + b
  {
    forall o ensures (a' + b')[o] == (a + b)[o] {
      assert (a' + queue)[o] == (a + (queue + one))[o] && (b' + (one + rest))[o] == (b + rest)[o];
    }
  }

  /** A selection moves no item, but one with a stale index loses what its task holds. */
  lemma PickKeepsItems(s: WorkState, t: nat)
    requires Enabled(s, Pick(t))
    ensures AllItems(Next(s, Pick(t))) == AllItems(s)
    ensures LiveItems(Next(s, Pick(t))) + (if s.index < |s.pool| then multiset{} else multiset(s.tasks[t].pending))
         == LiveItems(s)
  {
    var after := Next(s, Pick(t));
    if s.index < |s.pool| {
      assert Pending(after.tasks) == Pending(s.tasks);
      assert Held(after.tasks) == Held(s.tasks);
    } else {
      hide AllItems, LiveItems;
      CrashKeepsItems(s, t, after);
    }
  }

  // ----- every step, every run -----

  function Sent(log: seq<Put>, t: nat): seq<Item> {
    if log == [] then []
    else Sent(AllButLast(log), t) + (if Last(log).task == t then [Last(log).item] else [])
  }

  /**
   * Every task has put a prefix of what it drained, in that order, all to its one target,
   * and still holds the rest. Queues stay within their bound, the pool has no duplicates.
   */
  ghost predicate Orderly(s: WorkState) {
    && Distinct(s.pool)
    && (forall c :: 0 <= c < |s.queues| ==> |s.queues[c]| <= QUEUE_SIZE)
    && (forall t :: 0 <= t < |s.tasks| ==> Sent(s.log, t) + s.tasks[t].pending == s.tasks[t].origin)
    && forall i :: 0 <= i < |s.log| ==>
         s.log[i].task < |s.tasks| && s.tasks[s.log[i].task].target == Some(s.log[i].client)
  }

  lemma {:induction false} NothingSentYet(log: seq<Put>, t: nat)
    requires forall i :: 0 <= i < |log| ==> log[i].task < t
    ensures Sent(log, t) == []
  {
    if log != [] {
      NothingSentYet(AllButLast(log), t);
    }
  }

  lemma DrainKeepsOrder(s: WorkState, c: nat)
    requires Orderly(s) && c < |s.queues|
    ensures Orderly(Next(s, Drain(c)))
  {
    NothingSentYet(s.log, |s.tasks|);
  }

  lemma DeliverKeepsOrder(s: WorkState, t: nat, crashed: bool)
    requires Orderly(s) && Enabled(s, Deliver(t))
    ensures Orderly(PutNext(s, t, crashed))
  {
    var after, task := PutNext(s, t, crashed), s.tasks[t];
    assert AllButLast(after.log) == s.log;
    forall u | 0 <= u < |s.tasks|
      ensures Sent(after.log, u) + after.tasks[u].pending == after.tasks[u].origin
    {
      assert task.pending == [task.pending[0]] + task.pending[1..];
      assert Sent(after.log, u) == Sent(s.log, u) + (if u == t then [task.pending[0]] else []);
    }
  }

  lemma StepKeepsOrder(s: WorkState, step: WorkStep)
    requires Orderly(s) && Enabled(s, step)
    ensures Orderly(Next(s, step))
  {
    hide Sent, RemoveFirst;
    match step {
      case Drain(c) => DrainKeepsOrder(s, c);
      case Deliver(t) => DeliverKeepsOrder(s, t, false);
      case Interrupt(t) => DeliverKeepsOrder(s, t, true);
      case Disconnect(c) => RemoveFirstRemoves(s.pool, c);
      case Pick(t) =>
      case Connect(c) =>
      case Broadcast =>
    }
  }

  /**
   * The step does not crash a task that still holds items: neither on an index out of
   * range, nor on a message to a client that is gone.
   */
  predicate LosesNothing(s: WorkState, step: WorkStep)
    requires Enabled(s, step)
  {
    match step
    case Pick(t) => s.index < |s.pool| || s.tasks[t].pending == []
    case Interrupt(t) => |s.tasks[t].pending| == 1
    case _ => true
  }

  ghost predicate NeverLoses(s: WorkState, steps: seq<WorkStep>)
    decreases |steps|
  {
    steps == [] ||
    if Enabled(s, steps[0]) then LosesNothing(s, steps[0]) && NeverLoses(Next(s, steps[0]), steps[1..])
    else NeverLoses(s, steps[1..])
  }

  lemma StepKeepsItems(s: WorkState, step: WorkStep)
    requires Enabled(s, step)
    ensures AllItems(Next(s, step)) == AllItems(s)
    ensures LiveItems(Next(s, step)) <= LiveItems(s)
    ensures LosesNothing(s, step) <==> LiveItems(Next(s, step)) == LiveItems(s)
  {
    hide AllItems, LiveItems;
    match step {
      case Drain(c) => DrainKeepsItems(s, c);
      case Deliver(t) => DeliverKeepsItems(s, t);
      case Interrupt(t) =>
        InterruptKeepsItems(s, t);
        var rest := s.tasks[t].pending[1..];
        assert |LiveItems(Next(s, step))| + |multiset(rest)| == |LiveItems(s)|;
        assert rest == [] <==> |multiset(rest)| == 0;
      case Pick(t) =>
        PickKeepsItems(s, t);
        var lost := if s.index < |s.pool| then multiset{} else multiset(s.tasks[t].pending);
        assert |LiveItems(Next(s, step))| + |lost| == |LiveItems(s)|;
        assert s.tasks[t].pending == [] <==> |multiset(s.tasks[t].pending)| == 0;
      case Connect(_) | Disconnect(_) | Broadcast => OnlyThePool(s, step);
    }
  }

  lemma OnlyThePool(s: WorkState, step: WorkStep)
    requires Enabled(s, step) && (step.Connect? || step.Disconnect? || step.Broadcast?)
    ensures AllItems(Next(s, step)) == AllItems(s) && LiveItems(Next(s, step)) == LiveItems(s)
  {
  }

  /**
   * Work conservation: over every interleaving of drains, selections, bounded puts,
   * connections, disconnections and broadcasts no item appears, disappears or is doubled, and each
   * task delivers in the order it drained. Every item stays in a queue or with a task that
   * can still deliver it, exactly when no task crashes while it holds items.
   */
  lemma {:induction false} WorkIsConserved(s: WorkState, steps: seq<WorkStep>)
    requires Orderly(s)
    ensures Orderly(Exec(s, steps))
    ensures AllItems(Exec(s, steps)) == AllItems(s)
    ensures LiveItems(Exec(s, steps)) <= LiveItems(s)
    ensures NeverLoses(s, steps) <==> LiveItems(Exec(s, steps)) == LiveItems(s)
    decreases |steps|
  {
    hide Next, Orderly, AllItems, LiveItems, Enabled, LosesNothing;
    if steps != [] {
      if Enabled(s, steps[0]) {
        StepKeepsOrder(s, steps[0]);
        StepKeepsItems(s, steps[0]);
        WorkIsConserved(Next(s, steps[0]), steps[1..]);
      } else {
        WorkIsConserved(s, steps[1..]);
      }
    }
  }

  // ----- the order in the queues -----

  /** The items of all puts to client `c`, in order. */
  function PutTo(log: seq<Put>, c: nat): seq<Item> {
    if log == [] then [] else (if log[0].client == c then [log[0].item] else []) + PutTo(log[1..], c)
  }

  /** Everything that was drained from client `c`, in order. */
  function DrainedFrom(tasks: seq<Task>, c: nat): seq<Item> {
    if tasks == [] then [] else (if tasks[0].source == c then tasks[0].origin else []) + DrainedFrom(tasks[1..], c)
  }

  lemma {:induction false} PutToAppend(a: seq<Put>, b: seq<Put>, c: nat)
    ensures PutTo(a + b, c) == PutTo(a, c) + PutTo(b, c)
  {
    if a == [] {
      assert a + b == b;
    } else {
      PutToAppend(a[1..], b, c);
      assert (a + b)[1..] == a[1..] + b && (a + b)[0] == a[0];
      var first := if a[0].client == c then [a[0].item] else [];
      assert first + (PutTo(a[1..], c) + PutTo(b, c)) == (first + PutTo(a[1..], c)) + PutTo(b, c);
    }
  }

  /** Drained items depend on where tasks come from alone, not on how far they are. */
  lemma {:induction false} DrainedAppend(a: seq<Task>, b: seq<Task>, c: nat, all: seq<Task>)
    requires |all| == |a| + |b|
    requires forall i :: 0 <= i < |a| ==> all[i].source == a[i].source && all[i].origin == a[i].origin
    requires forall i :: 0 <= i < |b| ==> all[|a| + i].source == b[i].source && all[|a| + i].origin == b[i].origin
    ensures DrainedFrom(all, c) == DrainedFrom(a, c) + DrainedFrom(b, c)
    decreases |all|
  {
    if a != [] {
      DrainedAppend(a[1..], b, c, all[1..]);
    } else if b != [] {
      DrainedAppend(a, b[1..], c, all[1..]);
    }
  }

  /**
   * Since `s`, the queue of client `c` has worked first in, first out: what was drained from
   * it and what is in it now are what was in it then and what was put to it, in that order.
   */
  ghost predicate FirstInFirstOut(s: WorkState, after: WorkState, c: nat)
    requires c < |s.queues|
  {
    && |after.queues| == |s.queues| && s.log <= after.log && |s.tasks| <= |after.tasks|
    && (forall i :: 0 <= i < |s.tasks| ==>
          after.tasks[i].source == s.tasks[i].source && after.tasks[i].origin == s.tasks[i].origin)
    && DrainedFrom(after.tasks[|s.tasks|..], c) + after.queues[c] == s.queues[c] + PutTo(after.log[|s.log|..], c)
  }

  lemma StepIsFirstInFirstOut(s: WorkState, step: WorkStep, c: nat)
    requires Enabled(s, step) && c < |s.queues|
    ensures FirstInFirstOut(s, Next(s, step), c)
  {
    hide RemoveFirst;
    var after := Next(s, step);
    var tasks, log := after.tasks[|s.tasks|..], after.log[|s.log|..];
    match step {
      case Drain(d) =>
        assert tasks == [Task(d, s.queues[d], s.queues[d], None, false)] && tasks[1..] == [];
        assert DrainedFrom(tasks, c) == if d == c then s.queues[d] else [];
      case Deliver(t) => PutIsFirstInFirstOut(s, t, false, c);
      case Interrupt(t) => PutIsFirstInFirstOut(s, t, true, c);
      case Pick(_) | Connect(_) | Disconnect(_) | Broadcast =>
        assert tasks == [] && log == [];
    }
  }

  lemma PutIsFirstInFirstOut(s: WorkState, t: nat, crashed: bool, c: nat)
    requires Enabled(s, Deliver(t)) && c < |s.queues|
    ensures FirstInFirstOut(s, PutNext(s, t, crashed), c)
  {
    var after, task := PutNext(s, t, crashed), s.tasks[t];
    var put := Put(t, task.target.value, task.pending[0]);
    assert after.tasks[|s.tasks|..] == [] && after.log[|s.log|..] == [put] && [put][1..] == [];
    assert PutTo([put], c) == if put.client == c then [put.item] else [];
  }

  lemma FirstInFirstOutJoins(s: WorkState, mid: WorkState, after: WorkState, c: nat)
    requires c < |s.queues| == |mid.queues|
    requires FirstInFirstOut(s, mid, c) && FirstInFirstOut(mid, after, c)
    ensures FirstInFirstOut(s, after, c)
  {
    var n, m := |s.tasks|, |mid.tasks|;
    DrainedAppend(mid.tasks[n..], after.tasks[m..], c, after.tasks[n..]);
    var p, q := mid.log[|s.log|..], after.log[|mid.log|..];
    assert after.log[|s.log|..] == p + q;
    PutToAppend(p, q, c);
    Telescopes(DrainedFrom(mid.tasks[n..], c), DrainedFrom(after.tasks[m..], c),
               s.queues[c], mid.queues[c], after.queues[c], PutTo(p, c), PutTo(q, c));
  }

  lemma Telescopes(d: seq<Item>, e: seq<Item>, first: seq<Item>, mid: seq<Item>, last: seq<Item>,
                   p: seq<Item>, q: seq<Item>)
    requires d + mid == first + p && e + last == mid + q
    ensures (d + e) + last == first + (p + q)
  {
    assert (d + e) + last == d + (e + last) == d + (mid + q) == (d + mid) + q == (first + p) + q;
  }

  /** A task that was started since `s` drained some client in one of the steps. */
  lemma {:induction false} NoDrainNoTask(s: WorkState, steps: seq<WorkStep>, c: nat)
    requires forall i :: 0 <= i < |steps| ==> steps[i] != Drain(c)
    ensures var after := Exec(s, steps);
      && |s.tasks| <= |after.tasks|
      && forall i :: |s.tasks| <= i < |after.tasks| ==> after.tasks[i].source != c
    decreases |steps|
  {
    hide RemoveFirst;
    if steps != [] {
      var next := if Enabled(s, steps[0]) then Next(s, steps[0]) else s;
      NoDrainNoTask(next, steps[1..], c);
      if Enabled(s, steps[0]) {
        OriginsStay(next, steps[1..]);
      }
    }
  }

  /** Where a task comes from does not change; nor does its target, once it has one. */
  lemma {:induction false} OriginsStay(s: WorkState, steps: seq<WorkStep>)
    ensures var after := Exec(s, steps);
      && |s.tasks| <= |after.tasks|
      && forall i :: 0 <= i < |s.tasks| ==>
           && after.tasks[i].source == s.tasks[i].source && after.tasks[i].origin == s.tasks[i].origin
           && (s.tasks[i].target.Some? ==> after.tasks[i].target == s.tasks[i].target)
    decreases |steps|
  {
    hide RemoveFirst;
    if steps != [] {
      OriginsStay(if Enabled(s, steps[0]) then Next(s, steps[0]) else s, steps[1..]);
    }
  }

  lemma {:induction false} NothingDrained(tasks: seq<Task>, c: nat)
    requires forall i :: 0 <= i < |tasks| ==> tasks[i].source != c
    ensures DrainedFrom(tasks, c) == []
  {
    if tasks != [] {
      NothingDrained(tasks[1..], c);
    }
  }

  /**
   * Over every run each queue works first in, first out; as long as it is not drained, it
   * is what it was, followed by what was put to it, in the order of the puts.
   */
  lemma {:induction false} QueuesKeepOrder(s: WorkState, steps: seq<WorkStep>, c: nat)
    requires c < |s.queues|
    ensures var after := Exec(s, steps);
      && FirstInFirstOut(s, after, c)
      && ((forall i :: 0 <= i < |steps| ==> steps[i] != Drain(c)) ==>
            after.queues[c] == s.queues[c] + PutTo(after.log[|s.log|..], c))
    decreases |steps|
  {
    hide Next, Enabled;
    var after := Exec(s, steps);
    if steps == [] {
      assert s.tasks[|s.tasks|..] == [] && s.log[|s.log|..] == [];
    } else if Enabled(s, steps[0]) {
      StepIsFirstInFirstOut(s, steps[0], c);
      QueuesKeepOrder(Next(s, steps[0]), steps[1..], c);
      FirstInFirstOutJoins(s, Next(s, steps[0]), after, c);
    } else {
      QueuesKeepOrder(s, steps[1..], c);
    }
    if forall i :: 0 <= i < |steps| ==> steps[i] != Drain(c) {
      NoDrainNoTask(s, steps, c);
      NothingDrained(after.tasks[|s.tasks|..], c);
    }
  }

  /** After a drain a queue is what has been put to it since, in the order of the puts. */
  lemma QueueSinceDrain(s: WorkState, c: nat, steps: seq<WorkStep>)
    requires c < |s.queues| && forall i :: 0 <= i < |steps| ==> steps[i] != Drain(c)
    ensures var after := Exec(s, [Drain(c)] + steps);
      && s.log <= after.log && |after.queues| == |s.queues|
      && after.queues[c] == PutTo(after.log[|s.log|..], c)
      && |s.tasks| < |after.tasks| && after.tasks[|s.tasks|].origin == s.queues[c]
  {
    hide Exec, PutTo, DrainedFrom;
    var drained := Next(s, Drain(c));
    assert Exec(s, [Drain(c)] + steps) == Exec(drained, steps) by { FirstStep(s, Drain(c), steps); }
    QueuesKeepOrder(drained, steps, c);
    assert drained.queues[c] == [] && drained.log == s.log;
  }

  lemma FirstStep(s: WorkState, step: WorkStep, steps: seq<WorkStep>)
    requires Enabled(s, step)
    ensures Exec(s, [step] + steps) == Exec(Next(s, step), steps)
  {
    assert ([step] + steps)[1..] == steps;
  }

  // ----- whom a task selects -----

  ghost predicate AllEnabled(s: WorkState, steps: seq<WorkStep>)
    decreases |steps|
  {
    steps == [] || (Enabled(s, steps[0]) && AllEnabled(Next(s, steps[0]), steps[1..]))
  }

  /**
   * Selections in a row, by tasks and by broadcasts, go round a pool that does not change:
   * the first takes the client after the one at the index, and so on.
   */
  lemma {:induction false} SelectionsGoRound(s: WorkState, steps: seq<WorkStep>)
    requires s.index < |s.pool| && AllEnabled(s, steps)
    requires forall i :: 0 <= i < |steps| ==> steps[i].Pick? || steps[i].Broadcast?
    ensures var after := Exec(s, steps);
      && after.pool == s.pool && after.index == (s.index + |steps|) % |s.pool|
      && |after.tasks| == |s.tasks|
      && forall i :: 0 <= i < |steps| && steps[i].Pick? ==>
           && steps[i].task < |s.tasks| && !after.tasks[steps[i].task].crashed
           && after.tasks[steps[i].task].target == Some(s.pool[(s.index + 1 + i) % |s.pool|])
    decreases |steps|
  {
    if steps != [] {
      var next, n := Next(s, steps[0]), |s.pool|;
      SelectsTheNext(s, steps[0]);
      SelectionsGoRound(next, steps[1..]);
      var after := Exec(s, steps);
      assert after == Exec(next, steps[1..]);
      RoundAndRound(s.index, |steps| - 1, n);
      OriginsStay(next, steps[1..]);
      forall i | 0 <= i < |steps| && steps[i].Pick?
        ensures steps[i].task < |s.tasks| && !after.tasks[steps[i].task].crashed
        ensures after.tasks[steps[i].task].target == Some(s.pool[(s.index + 1 + i) % n])
      {
        if i > 0 {
          assert steps[i] == steps[1..][i - 1];
          RoundAndRound(s.index, i, n);
        } else {
          NotCrashed(next, steps[1..], steps[0].task);
        }
      }
    }
  }

  lemma SelectsTheNext(s: WorkState, step: WorkStep)
    requires Enabled(s, step) && s.index < |s.pool| && (step.Pick? || step.Broadcast?)
    ensures var after := Next(s, step);
      && after.pool == s.pool && after.index == (s.index + 1) % |s.pool| && |after.tasks| == |s.tasks|
      && (step.Pick? ==> step.task < |s.tasks| && after.tasks[step.task].target == Some(s.pool[after.index])
                         && !after.tasks[step.task].crashed)
  {
  }

  lemma RoundAndRound(index: nat, k: nat, n: nat)
    requires index < n
    ensures ((index + 1) % n + k) % n == (index + 1 + k) % n
  {
    if index + 1 == n {
      assert n % n == 0 by { OneRemainder(n, n, 1, 0); }
      var q, r := k / n, k % n;
      assert n * (q + 1) == n * q + n;
      OneRemainder(k + n, n, q + 1, r);
    } else {
      assert (index + 1) % n == index + 1 by { OneRemainder(index + 1, n, 0, index + 1); }
    }
  }

  lemma OneRemainder(x: nat, n: nat, q: nat, r: nat)
    requires r < n && x == n * q + r
    ensures x % n == r
  {
    var p := x / n;
    if p < q {
      Multiples(n, p + 1, q);
    } else if p > q {
      Multiples(n, q + 1, p);
    }
  }

  lemma Multiples(n: nat, a: nat, b: nat)
    requires a <= b
    ensures n * a <= n * b && n * a == n * (a - 1) + n
  {
  }

  /** Selections within the pool crash nobody. */
  lemma {:induction false} NotCrashed(s: WorkState, steps: seq<WorkStep>, t: nat)
    requires s.index < |s.pool| && AllEnabled(s, steps) && t < |s.tasks| && !s.tasks[t].crashed
    requires forall i :: 0 <= i < |steps| ==> steps[i].Pick? || steps[i].Broadcast?
    ensures t < |Exec(s, steps).tasks| && !Exec(s, steps).tasks[t].crashed
    decreases |steps|
  {
    if steps != [] {
      NotCrashed(Next(s, steps[0]), steps[1..], t);
    }
  }

  /**
   * The loss is real: after the pool has shrunk below the index, the task of a lost
   * client crashes on its selection and its item is in no queue and with no live task.
   */
  lemma StaleIndexLosesWork(item: Item)
    ensures var s := WorkState([[item], [], []], [0, 1, 2], 2, [], []);
      var steps := [Disconnect(0), Drain(0), Disconnect(2), Pick(0)];
      && Orderly(s) && !NeverLoses(s, steps)
      && Exec(s, steps).tasks == [Task(0, [item], [item], None, true)]
      && LiveItems(s) == multiset{item} && LiveItems(Exec(s, steps)) == multiset{}
  {
    hide Exec, NeverLoses, LiveItems, Orderly, RemoveFirst;
    var s := WorkState([[item], [], []], [0, 1, 2], 2, [], []);
    var s1, task := s.(pool := [1, 2]), Task(0, [item], [item], None, false);
    var s2 := WorkState([[], [], []], [1, 2], 2, [task], []);
    var s3, s4 := s2.(pool := [1]), WorkState([[], [], []], [1], 3, [task.(crashed := true)], []);
    RemovedFromPool();
    StartIsOrderly(s);
    DrainStep(s1);
    FourSteps(s, Disconnect(0), s1, Drain(0), s2, Disconnect(2), s3, Pick(0), s4);
    LiveItemsOf(s);
    LiveItemsOf(s4);
  }

  /**
   * So is the other way to lose work: a put whose message meets a client that is gone ends
   * the task, and what it had not put yet is lost.
   */
  lemma InterruptLosesWork(one: Item, two: Item)
    ensures var s := WorkState([[one, two], [], []], [0, 1], 0, [], []);
      var steps := [Disconnect(0), Drain(0), Pick(0), Interrupt(0)];
      && Orderly(s) && !NeverLoses(s, steps)
      && Exec(s, steps).tasks == [Task(0, [one, two], [two], Some(1), true)]
      && LiveItems(s) == multiset{one, two} && LiveItems(Exec(s, steps)) == multiset{one}
  {
    hide Exec, NeverLoses, LiveItems, Orderly, RemoveFirst;
    var s := WorkState([[one, two], [], []], [0, 1], 0, [], []);
    var s1 := s.(pool := [1]);
    var s2 := WorkState([[], [], []], [1], 0, [Task(0, [one, two], [one, two], None, false)], []);
    var s3 := s2.(tasks := [Task(0, [one, two], [one, two], Some(1), false)]);
    var s4 := WorkState([[], [one], []], [1], 0, [Task(0, [one, two], [two], Some(1), true)], [Put(0, 1, one)]);
    RemovedFromPool();
    StartIsOrderly(s);
    DrainStep(s1);
    InterruptStep(s3, one, two);
    FourSteps(s, Disconnect(0), s1, Drain(0), s2, Pick(0), s3, Interrupt(0), s4);
    LiveItemsOf(s);
    LiveItemsOf(s4);
  }

  /** The first of three queues is drained, by the first task. */
  lemma DrainStep(s: WorkState)
    requires |s.queues| == 3 && s.queues[1] == s.queues[2] == [] && s.tasks == []
    ensures Next(s, Drain(0)).queues == [[], [], []]
    ensures Next(s, Drain(0)).tasks == [Task(0, s.queues[0], s.queues[0], None, false)]
  {
  }

  lemma InterruptStep(s: WorkState, one: Item, two: Item)
    requires s.queues == [[], [], []] && s.log == []
    requires s.tasks == [Task(0, [one, two], [one, two], Some(1), false)]
    ensures Enabled(s, Interrupt(0))
    ensures Next(s, Interrupt(0)) == WorkState([[], [one], []], s.pool, s.index,
                                               [Task(0, [one, two], [two], Some(1), true)], [Put(0, 1, one)])
  {
    assert [one, two][1..] == [two];
    assert s.queues[1] + [one] == [one];
  }

  lemma RemovedFromPool()
    ensures RemoveFirst([0, 1, 2], 0) == [1, 2] && RemoveFirst([0, 1], 0) == [1] && RemoveFirst([1, 2], 2) == [1]
  {
    assert RemoveFirst([2], 2) == [];
    assert [1, 2][1..] == [2];
  }

  lemma StartIsOrderly(s: WorkState)
    requires Distinct(s.pool) && s.tasks == [] && s.log == []
    requires forall c :: 0 <= c < |s.queues| ==> |s.queues[c]| <= QUEUE_SIZE
    ensures Orderly(s)
  {
  }

  ghost predicate Leads(s: WorkState, step: WorkStep, after: WorkState) {
    Enabled(s, step) && after == Next(s, step)
  }

  lemma FourSteps(s: WorkState, a: WorkStep, sa: WorkState, b: WorkStep, sb: WorkState,
                  c: WorkStep, sc: WorkState, d: WorkStep, sd: WorkState)
    requires Leads(s, a, sa) && Leads(sa, b, sb) && Leads(sb, c, sc) && Leads(sc, d, sd)
    ensures Exec(s, [a, b, c, d]) == sd
    ensures !LosesNothing(sc, d) ==> !NeverLoses(s, [a, b, c, d])
  {
    hide Next, Enabled, LosesNothing;
    assert [a, b, c, d][1..] == [b, c, d] && [b, c, d][1..] == [c, d] && [c, d][1..] == [d] && [d][1..] == [];
    assert Exec(sd, []) == sd;
    assert Exec(sb, [c, d]) == Exec(sc, [d]) == sd;
    assert !LosesNothing(sc, d) ==> !NeverLoses(sc, [d]);
    assert NeverLoses(sb, [c, d]) ==> NeverLoses(sc, [d]);
  }

  lemma LiveItemsOf(s: WorkState)
    requires |s.queues| == 3 && (s.tasks == [] || (|s.tasks| == 1 && s.tasks[0].crashed))
    ensures LiveItems(s) == multiset(s.queues[0]) + multiset(s.queues[1]) + multiset(s.queues[2])
  {
    var two, one := s.queues[1..], s.queues[1..][1..];
    assert one[1..] == [] && Total(one) == multiset(one[0]);
    assert Total(two) == multiset(two[0]) + Total(one);
    if s.tasks == [] {
      assert Held(s.tasks) == [];
    } else {
      assert Held(s.tasks)[1..] == [] && Held(s.tasks)[0] == [];
    }
  }
}
