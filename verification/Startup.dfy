/**
 * Who starts connect tasks: the loop of `connect_all_peers` over the list of clients, and
 * the handler of `addr` messages, which appends to that same list while the loop is asleep.
 */
module Startup {
  import opened Pools

  /**
   * Clients are numbered as they are added. `cursor` is the iterator of the loop, which sees
   * later additions until it has run out once; `owners` lists the clients tasks were started
   * for. `found` holds the clients the handler started, `early` if any of them was found
   * while the loop was running.
   */
  datatype StartState =
    StartState(clients: nat, cursor: nat, looping: bool, owners: seq<nat>, found: set<nat>, early: bool)

  /** The loop's next turn, whether it starts a client or ends; and a peer's new address. */
  datatype StartStep = Turn | NewAddress

  function Begin(clients: nat): StartState {
    StartState(clients, 0, true, [], {}, false)
  }

  /** `concurrency` clients are added for an address, and the last of them is started. */
  function Next(concurrency: nat, s: StartState, step: StartStep): StartState
    requires concurrency > 0
  {
    match step
    case Turn =>
      if !s.looping then s
      else if s.cursor == s.clients then s.(looping := false)
      else s.(cursor := s.cursor + 1, owners := s.owners + [s.cursor])
    case NewAddress =>
      var client := s.clients + concurrency - 1;
      s.(clients := s.clients + concurrency, owners := s.owners + [client],
         found := s.found + {client}, early := s.early || s.looping)
  }

  function Exec(concurrency: nat, s: StartState, steps: seq<StartStep>): StartState
    requires concurrency > 0
    decreases |steps|
  {
    if steps == [] then s else Exec(concurrency, Next(concurrency, s, steps[0]), steps[1..])
  }

  /** What every stretch keeps. */
  ghost predicate Tracked(concurrency: nat, s: StartState) {
    && s.cursor <= s.clients
    && (forall c: nat :: c in s.owners <==> c < s.cursor || c in s.found)
    && (forall c :: c in s.found ==> c < s.clients)
    && (Distinct(s.owners) <==> forall c :: c in s.found ==> s.cursor <= c)
    && (if s.looping then s.early <==> s.found != {}
        else
          && (Distinct(s.owners) <==> !s.early)
          && (s.cursor < s.clients ==>
                if concurrency == 1 then forall c :: s.cursor <= c < s.clients ==> c in s.found
                else s.cursor !in s.found))
  }

  lemma DistinctAppend(s: seq<nat>, x: nat)
    ensures Distinct(s + [x]) <==> Distinct(s) && x !in s
  {
    var t := s + [x];
    assert t[|s|] == x;
    if Distinct(t) {
      assert forall i :: 0 <= i < |s| ==> s[i] == t[i];
    }
  }

  lemma StepKeepsTracked(concurrency: nat, s: StartState, step: StartStep)
    requires concurrency > 0 && Tracked(concurrency, s)
    ensures Tracked(concurrency, Next(concurrency, s, step))
  {
    hide Distinct;
    DistinctAppend(s.owners, s.cursor);
    DistinctAppend(s.owners, s.clients + concurrency - 1);
  }

  lemma {:induction false} RunKeepsTracked(concurrency: nat, s: StartState, steps: seq<StartStep>)
    requires concurrency > 0 && Tracked(concurrency, s)
    ensures Tracked(concurrency, Exec(concurrency, s, steps))
    decreases |steps|
  {
    hide Tracked, Next;
    if steps != [] {
      StepKeepsTracked(concurrency, s, steps[0]);
      RunKeepsTracked(concurrency, Next(concurrency, s, steps[0]), steps[1..]);
    }
  }

  /**
   * After any run the connect tasks keep the pools in order in every interleaving exactly
   * if the loop has not passed a client the handler started. Once the loop has ended that
   * is: if no address was found while it was running. Every client then has a task exactly
   * if none was found later, or an address has one client alone.
   */
  lemma OneTaskEachExactly(concurrency: nat, clients: nat, steps: seq<StartStep>)
    requires concurrency > 0
    ensures var s := Exec(concurrency, Begin(clients), steps);
      var inOrder := forall run :: Pools.Exec(s.owners, Initial(|s.owners|), run).Ok?;
      && (inOrder <==> forall c :: c in s.found ==> s.cursor <= c)
      && (!s.looping ==>
            && (inOrder <==> !s.early)
            && ((forall c :: 0 <= c < s.clients ==> c in s.owners) <==> s.cursor == s.clients || concurrency == 1))
  {
    assert Tracked(concurrency, Begin(clients)) by {
      assert Begin(clients).owners == [];
    }
    RunKeepsTracked(concurrency, Begin(clients), steps);
    PoolsNeverFailExactly(Exec(concurrency, Begin(clients), steps).owners);
  }

  /** How many addresses are found in a run. */
  function Addresses(steps: seq<StartStep>): nat {
    if steps == [] then 0 else (if steps[0] == NewAddress then 1 else 0) + Addresses(steps[1..])
  }

  /** Client `c` is the last one of the `j`-th address found. */
  ghost predicate LastOf(c: nat, concurrency: nat, clients: nat, j: nat) {
    c == clients + concurrency * j - 1
  }

  /** Every address adds `concurrency` clients, of which the handler starts the last. */
  lemma {:induction false} LastOfEachIsStarted(concurrency: nat, s: StartState, steps: seq<StartStep>)
    requires concurrency > 0
    ensures var after, n := Exec(concurrency, s, steps), Addresses(steps);
      && after.clients == s.clients + concurrency * n
      && forall c :: c in after.found <==>
           c in s.found || exists j :: 1 <= j <= n && LastOf(c, concurrency, s.clients, j)
    decreases |steps|
  {
    hide Next;
    if steps != [] {
      var next, n := Next(concurrency, s, steps[0]), Addresses(steps[1..]);
      LastOfEachIsStarted(concurrency, next, steps[1..]);
      NextClients(concurrency, s, steps[0]);
      if steps[0] == NewAddress {
        forall c: nat, j: nat | j >= 1
          ensures LastOf(c, concurrency, next.clients, j) <==> LastOf(c, concurrency, s.clients, j + 1)
        {
          assert concurrency * (j + 1) == concurrency * j + concurrency;
        }
        forall c: nat, j: nat | 1 <= j <= n + 1 && LastOf(c, concurrency, s.clients, j)
          ensures LastOf(c, concurrency, s.clients, 1) || (j > 1 && LastOf(c, concurrency, next.clients, j - 1))
        {
          assert j > 1 ==> LastOf(c, concurrency, next.clients, j - 1) by {
            assert concurrency * j == concurrency * (j - 1) + concurrency;
          }
        }
        assert concurrency * (n + 1) == concurrency * n + concurrency;
      }
    }
  }

  lemma NextClients(concurrency: nat, s: StartState, step: StartStep)
    requires concurrency > 0
    ensures var next := Next(concurrency, s, step);
      if step == NewAddress then
        && next.clients == s.clients + concurrency
        && forall c :: c in next.found <==> c in s.found || LastOf(c, concurrency, s.clients, 1)
      else next.clients == s.clients && next.found == s.found
  {
  }

  /** One client, and one address found during the loop: the new client gets two tasks. */
  lemma EarlyAddressSharesClient()
    ensures var s := Exec(1, Begin(1), [Turn, NewAddress, Turn, Turn]);
      !s.looping && s.owners == [0, 1, 1]
  {
    var s0 := Begin(1);
    var s1 := Next(1, s0, Turn);
    var s2 := Next(1, s1, NewAddress);
    var s3 := Next(1, s2, Turn);
    var s4 := Next(1, s3, Turn);
    assert s1.owners == [0] && s2.owners == [0, 1] && s3.owners == [0, 1, 1] && !s4.looping;
    assert [Turn, NewAddress, Turn, Turn][1..] == [NewAddress, Turn, Turn];
    assert [NewAddress, Turn, Turn][1..] == [Turn, Turn] && [Turn, Turn][1..] == [Turn] && [Turn][1..] == [];
    assert Exec(1, s4, []) == s4;
    assert Exec(1, s2, [Turn, Turn]) == Exec(1, s3, [Turn]) == s4;
  }
}
