/**
 * The connect tasks of the client manager, cut at their await points: a run is any
 * interleaving of the stretches between them.
 */
module Pools {
  /** A connect task waits for `connect`, for the loss of its connection, or for its sleep to end. */
  datatype Place = NotStarted | Connecting | Connected | Sleeping

  const SLEEP_TIMES: seq<nat> := [5, 30, 90, 180, 600]

  /** Both pools hold clients; tasks have an index, and `places` and `sleeps` are theirs. */
  datatype PoolState = PoolState(pool: seq<nat>, disconnected: set<nat>, places: seq<Place>, sleeps: seq<nat>)

  datatype PoolStep =
    | Start(task: nat)
    | Succeed(task: nat)
    | Reset(task: nat)
    | Refuse(task: nat)
    | Lose(task: nat)
    | Wake(task: nat)

  /** `KeyError` is the exception of removing a client that is not in the set. */
  datatype Result = Ok(state: PoolState) | KeyError

  predicate Distinct<T(==)>(s: seq<T>) {
    forall i, j :: 0 <= i < j < |s| ==> s[i] != s[j]
  }

  function RemoveFirst(s: seq<nat>, x: nat): seq<nat> {
    if s == [] then [] else if s[0] == x then s[1..] else [s[0]] + RemoveFirst(s[1..], x)
  }

  /** A connected client joins the pool at its end, unless it is there. */
  function Joined(s: seq<nat>, x: nat): seq<nat> {
    if x in s then s else s + [x]
  }

  /** What each stretch waits for. */
  function Waits(step: PoolStep): Place {
    match step
    case Start(_) => NotStarted
    case Succeed(_) | Reset(_) | Refuse(_) => Connecting
    case Lose(_) => Connected
    case Wake(_) => Sleeping
  }

  predicate Enabled(s: PoolState, step: PoolStep) {
    step.task < |s.places| && |s.sleeps| == |s.places| && s.places[step.task] == Waits(step)
  }

  /** The end of every turn of the loop: out of one pool, into the other, and to sleep. */
  function Leave(s: PoolState, task: nat, client: nat, sleep: nat): PoolState
    requires task < |s.places| == |s.sleeps|
  {
    PoolState(RemoveFirst(s.pool, client), s.disconnected + {client},
          s.places[task := Sleeping], s.sleeps[task := sleep])
  }

  /** `owner[task]` is the client a task was started for. */
  function Next(owner: seq<nat>, s: PoolState, step: PoolStep): Result
    requires Enabled(s, step) && step.task < |owner|
  {
    var t, c := step.task, owner[step.task];
    match step
    case Start(_) =>
      Ok(PoolState(s.pool, s.disconnected + {c}, s.places[t := Connecting], s.sleeps[t := 0]))
    case Succeed(_) =>
      if c !in s.disconnected then KeyError
      else Ok(PoolState(Joined(s.pool, c), s.disconnected - {c},
                    s.places[t := Connected], s.sleeps[t := 0]))
    case Reset(_) =>
      var next := s.sleeps[t] + 1;
      Ok(Leave(s, t, c, if next < |SLEEP_TIMES| then next else |SLEEP_TIMES| - 1))
    case Refuse(_) => Ok(Leave(s, t, c, |SLEEP_TIMES| - 1))
    case Lose(_) => Ok(Leave(s, t, c, s.sleeps[t]))
    case Wake(_) => Ok(s.(places := s.places[t := Connecting]))
  }

  function Initial(n: nat): PoolState {
    PoolState([], {}, seq(n, _ => NotStarted), seq(n, _ => 0))
  }

  /** A run; a step that is not enabled does not happen. */
  function Exec(owner: seq<nat>, s: PoolState, steps: seq<PoolStep>): Result
    decreases |steps|
  {
    if steps == [] then Ok(s)
    else if steps[0].task < |owner| && Enabled(s, steps[0]) then
      match Next(owner, s, steps[0])
      case Ok(after) => Exec(owner, after, steps[1..])
      case KeyError => KeyError
    else Exec(owner, s, steps[1..])
  }

  /** Each started client is in exactly one pool, the one its task's place says. */
  ghost predicate Partitioned(owner: seq<nat>, s: PoolState) {
    && |s.places| == |s.sleeps| == |owner|
    && Distinct(s.pool)
    && (forall c :: c in s.pool || c in s.disconnected ==> c in owner)
    && forall t :: 0 <= t < |owner| ==>
         && s.sleeps[t] < |SLEEP_TIMES|
         && (owner[t] in s.pool <==> s.places[t] == Connected)
         && (owner[t] in s.disconnected <==> s.places[t] == Connecting || s.places[t] == Sleeping)
  }

  lemma {:induction false} RemoveFirstRemoves(s: seq<nat>, x: nat)
    requires Distinct(s)
    ensures Distinct(RemoveFirst(s, x))
    ensures forall y :: y in RemoveFirst(s, x) <==> y in s && y != x
  {
    if s != [] {
      RemoveFirstRemoves(s[1..], x);
      assert s == [s[0]] + s[1..];
      if s[0] != x {
        var rest := RemoveFirst(s[1..], x);
        assert RemoveFirst(s, x) == [s[0]] + rest;
        assert s[0] !in rest;
      }
    }
  }

  lemma StepKeepsPartition(owner: seq<nat>, s: PoolState, step: PoolStep)
    requires Distinct(owner) && Partitioned(owner, s) && Enabled(s, step)
    ensures Next(owner, s, step).Ok? && Partitioned(owner, Next(owner, s, step).state)
  {
    hide RemoveFirst;
    RemoveFirstRemoves(s.pool, owner[step.task]);
  }

  /**
   * With one connect task per client, at every await point of every interleaving: no
   * removal fails, and the pools are partitioned as the places of the tasks say.
   */
  lemma {:induction false} PoolsStayPartitioned(owner: seq<nat>, s: PoolState, steps: seq<PoolStep>)
    requires Distinct(owner) && Partitioned(owner, s)
    ensures Exec(owner, s, steps).Ok? && Partitioned(owner, Exec(owner, s, steps).state)
    decreases |steps|
  {
    hide Next, Partitioned;
    if steps != [] {
      if steps[0].task < |owner| && Enabled(s, steps[0]) {
        StepKeepsPartition(owner, s, steps[0]);
        PoolsStayPartitioned(owner, Next(owner, s, steps[0]).state, steps[1..]);
      } else {
        PoolsStayPartitioned(owner, s, steps[1..]);
      }
    }
  }

  lemma InitialIsPartitioned(owner: seq<nat>)
    ensures Partitioned(owner, Initial(|owner|))
  {
  }

  /** What the two pools of a partitioned state have to do with each other. */
  lemma PoolsAreDisjoint(owner: seq<nat>, s: PoolState, c: nat)
    requires Partitioned(owner, s)
    ensures !(c in s.pool && c in s.disconnected)
    ensures c in s.pool || c in s.disconnected <==>
              exists t :: 0 <= t < |owner| && owner[t] == c && s.places[t] != NotStarted
  {
    if c in owner {
      var t :| 0 <= t < |owner| && owner[t] == c;
    }
  }

  /** Two tasks for one client: the second to connect removes a client that is not there. */
  lemma SharedClientFails(owner: seq<nat>, i: nat, j: nat)
    requires i < j < |owner| && owner[i] == owner[j]
    ensures Exec(owner, Initial(|owner|), [Start(i), Start(j), Succeed(i), Succeed(j)]) == KeyError
  {
    var c, s0 := owner[i], Initial(|owner|);
    var s1 := Next(owner, s0, Start(i)).state;
    var s2 := Next(owner, s1, Start(j)).state;
    var s3 := Next(owner, s2, Succeed(i)).state;
    assert Next(owner, s3, Succeed(j)) == KeyError;
    var steps := [Start(i), Start(j), Succeed(i), Succeed(j)];
    assert steps[1..] == [Start(j), Succeed(i), Succeed(j)];
    assert steps[1..][1..] == [Succeed(i), Succeed(j)];
    assert steps[1..][1..][1..] == [Succeed(j)];
    assert Exec(owner, s3, [Succeed(j)]) == KeyError;
    assert Exec(owner, s2, [Succeed(i), Succeed(j)]) == KeyError;
    assert Exec(owner, s1, [Start(j), Succeed(i), Succeed(j)]) == KeyError;
  }

  /** No interleaving of the connect tasks fails, exactly when each has a client of its own. */
  lemma PoolsNeverFailExactly(owner: seq<nat>)
    ensures (forall steps :: Exec(owner, Initial(|owner|), steps).Ok?) <==> Distinct(owner)
  {
    if Distinct(owner) {
      InitialIsPartitioned(owner);
      forall steps ensures Exec(owner, Initial(|owner|), steps).Ok? {
        PoolsStayPartitioned(owner, Initial(|owner|), steps);
      }
    } else {
      var i, j :| 0 <= i < j < |owner| && owner[i] == owner[j];
      SharedClientFails(owner, i, j);
    }
  }

  // ----- the order of the pool -----

  /** Removal keeps the order of the rest. */
  lemma {:induction false} RemovalKeepsOrder(s: seq<nat>, x: nat) returns (i: nat)
    requires x in s
    ensures i < |s| && s[i] == x && x !in s[..i] && RemoveFirst(s, x) == s[..i] + s[i + 1..]
  {
    if s[0] == x {
      i := 0;
    } else {
      var j := RemovalKeepsOrder(s[1..], x);
      i := j + 1;
      assert s[..i] == [s[0]] + s[1..][..j] && s[i + 1..] == s[1..][j + 1..];
    }
  }

  lemma {:induction false} NotInPool(s: seq<nat>, x: nat)
    requires x !in s
    ensures RemoveFirst(s, x) == s
  {
    if s != [] {
      NotInPool(s[1..], x);
    }
  }

  lemma StepGrowsPool(owner: seq<nat>, s: PoolState, step: PoolStep)
    requires Distinct(owner) && Partitioned(owner, s) && Enabled(s, step)
    ensures var after := Next(owner, s, step);
      && after.Ok? && Partitioned(owner, after.state)
      && after.state.pool == match step
         case Succeed(t) => s.pool + [owner[t]]
         case Lose(t) => RemoveFirst(s.pool, owner[t])
         case _ => s.pool
  {
    StepKeepsPartition(owner, s, step);
    hide RemoveFirst;
    if step.Reset? || step.Refuse? {
      NotInPool(s.pool, owner[step.task]);
    }
  }

  /**
   * The pool lists its clients in the order in which they connected: whatever happens, as
   * long as none of them is lost, new ones come behind all that are there.
   */
  lemma {:induction false} PoolGrowsAtItsEnd(owner: seq<nat>, s: PoolState, steps: seq<PoolStep>)
    requires Distinct(owner) && Partitioned(owner, s)
    requires forall i :: 0 <= i < |steps| ==> !steps[i].Lose?
    ensures Exec(owner, s, steps).Ok? && s.pool <= Exec(owner, s, steps).state.pool
    decreases |steps|
  {
    hide Next, Partitioned, RemoveFirst;
    if steps != [] {
      if steps[0].task < |owner| && Enabled(s, steps[0]) {
        StepGrowsPool(owner, s, steps[0]);
        PoolGrowsAtItsEnd(owner, Next(owner, s, steps[0]).state, steps[1..]);
      } else {
        PoolGrowsAtItsEnd(owner, s, steps[1..]);
      }
    }
  }

  /** A client that is lost leaves the others in their order. */
  lemma LostLeavesOrder(owner: seq<nat>, s: PoolState, t: nat) returns (i: nat)
    requires Distinct(owner) && Partitioned(owner, s) && Enabled(s, Lose(t))
    ensures Next(owner, s, Lose(t)).Ok? && i < |s.pool| && s.pool[i] == owner[t]
    ensures Next(owner, s, Lose(t)).state.pool == s.pool[..i] + s.pool[i + 1..]
  {
    hide RemoveFirst;
    i := RemovalKeepsOrder(s.pool, owner[t]);
  }

  // ----- how long a task sleeps -----

  /** Steps of other tasks leave a task where it is. */
  lemma {:induction false} OthersLeaveTask(owner: seq<nat>, s: PoolState, steps: seq<PoolStep>, t: nat)
    requires t < |owner| == |s.places| == |s.sleeps|
    requires forall i :: 0 <= i < |steps| ==> steps[i].task != t
    requires Exec(owner, s, steps).Ok?
    ensures var after := Exec(owner, s, steps).state;
      && |after.places| == |after.sleeps| == |owner|
      && after.places[t] == s.places[t] && after.sleeps[t] == s.sleeps[t]
    decreases |steps|
  {
    hide RemoveFirst;
    if steps != [] {
      if steps[0].task < |owner| && Enabled(s, steps[0]) {
        OthersLeaveTask(owner, Next(owner, s, steps[0]).state, steps[1..], t);
      } else {
        OthersLeaveTask(owner, s, steps[1..], t);
      }
    }
  }

  /** A connected task, and one that has not failed yet, is at the first entry of the table. */
  ghost predicate SleepsTracked(owner: seq<nat>, s: PoolState) {
    && |s.places| == |s.sleeps| == |owner|
    && forall t :: 0 <= t < |owner| ==>
         s.sleeps[t] < |SLEEP_TIMES| && (s.places[t] == Connected ==> s.sleeps[t] == 0)
  }

  lemma {:induction false} RunTracksSleeps(owner: seq<nat>, s: PoolState, steps: seq<PoolStep>)
    requires SleepsTracked(owner, s) && Exec(owner, s, steps).Ok?
    ensures SleepsTracked(owner, Exec(owner, s, steps).state)
    decreases |steps|
  {
    hide RemoveFirst;
    if steps != [] {
      if steps[0].task < |owner| && Enabled(s, steps[0]) {
        RunTracksSleeps(owner, Next(owner, s, steps[0]).state, steps[1..]);
      } else {
        RunTracksSleeps(owner, s, steps[1..]);
      }
    }
  }

  lemma {:induction false} ExecAppend(owner: seq<nat>, s: PoolState, a: seq<PoolStep>, b: seq<PoolStep>)
    ensures Exec(owner, s, a + b) ==
      match Exec(owner, s, a)
      case Ok(mid) => Exec(owner, mid, b)
      case KeyError => KeyError
    decreases |a|
  {
    hide Next;
    if a == [] {
      assert a + b == b;
    } else {
      assert (a + b)[1..] == a[1..] + b;
      if a[0].task < |owner| && Enabled(s, a[0]) {
        var next := Next(owner, s, a[0]);
        if next.Ok? {
          ExecAppend(owner, next.state, a[1..], b);
        }
      } else {
        ExecAppend(owner, s, a[1..], b);
      }
    }
  }

  /** What the end of a turn of the loop does to its own task. */
  lemma StepSetsSleep(owner: seq<nat>, s: PoolState, step: PoolStep)
    requires SleepsTracked(owner, s) && Enabled(s, step) && (step.Lose? || step.Refuse? || step.Reset?)
    ensures Next(owner, s, step).Ok?
    ensures var after, t := Next(owner, s, step).state, step.task;
      && |after.places| == |after.sleeps| == |owner| && after.places[t] == Sleeping && after.sleeps[t] < |SLEEP_TIMES|
      && s.sleeps[t] < 5
      && SLEEP_TIMES[after.sleeps[t]] == if step.Lose? then 5
                                         else if step.Refuse? then 600
                                         else [30, 90, 180, 600, 600][s.sleeps[t]]
  {
    hide RemoveFirst;
  }

  /**
   * How long a task sleeps, in seconds, in every interleaving and whatever the other tasks
   * do in the meantime: five after a lost connection, ten minutes after a refused one, and
   * after a failed handshake the next longer time than the last one.
   */
  lemma SleepsAsPromised(owner: seq<nat>, before: seq<PoolStep>, step: PoolStep, others: seq<PoolStep>)
    requires step.Lose? || step.Refuse? || step.Reset?
    requires forall i :: 0 <= i < |others| ==> others[i].task != step.task
    requires var s := Exec(owner, Initial(|owner|), before);
      s.Ok? && step.task < |owner| && Enabled(s.state, step)
    requires Exec(owner, Initial(|owner|), before + [step] + others).Ok?
    ensures var s := Exec(owner, Initial(|owner|), before).state;
      var after, t := Exec(owner, Initial(|owner|), before + [step] + others).state, step.task;
      && t < |after.places| == |after.sleeps| && after.places[t] == Sleeping && after.sleeps[t] < |SLEEP_TIMES|
      && s.sleeps[t] < 5
      && SLEEP_TIMES[after.sleeps[t]] == if step.Lose? then 5
                                         else if step.Refuse? then 600
                                         else [30, 90, 180, 600, 600][s.sleeps[t]]
  {
    hide Next;
    var start, t := Initial(|owner|), step.task;
    var s := Exec(owner, start, before).state;
    RunTracksSleeps(owner, start, before);
    StepSetsSleep(owner, s, step);
    ExecAppend(owner, start, before, [step] + others);
    assert before + [step] + others == before + ([step] + others);
    assert ([step] + others)[1..] == others;
    OthersLeaveTask(owner, Next(owner, s, step).state, others, t);
  }

  /** `k` failed handshakes in a row, each followed by a sleep. */
  function Retries(t: nat, k: nat): seq<PoolStep> {
    if k == 0 then [] else [Reset(t), Wake(t)] + Retries(t, k - 1)
  }

  /**
   * Failed handshakes back off one entry of the table at a time and stay at the last one.
   * The first of them already sleeps for the second entry: the first is for lost connections.
   */
  lemma {:induction false} RetriesBackOff(owner: seq<nat>, s: PoolState, t: nat, k: nat)
    requires t < |owner| == |s.places| == |s.sleeps| && s.places[t] == Connecting && s.sleeps[t] < |SLEEP_TIMES|
    ensures var r := Exec(owner, s, Retries(t, k));
      && r.Ok? && |r.state.places| == |r.state.sleeps| == |owner| && r.state.places[t] == Connecting
      && r.state.sleeps[t] == (if s.sleeps[t] + k < 5 then s.sleeps[t] + k else 4)
    decreases k
  {
    hide RemoveFirst;
    if k > 0 {
      var steps, rest := Retries(t, k), Retries(t, k - 1);
      var asleep := Next(owner, s, Reset(t)).state;
      var awake := Next(owner, asleep, Wake(t)).state;
      assert steps[1..] == [Wake(t)] + rest && ([Wake(t)] + rest)[1..] == rest;
      assert Exec(owner, asleep, [Wake(t)] + rest) == Exec(owner, awake, rest);
      RetriesBackOff(owner, awake, t, k - 1);
    }
  }
}
