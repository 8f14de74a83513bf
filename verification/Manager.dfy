/** The client manager's methods, stretch by stretch, over its pools and its selection index. */
module Manager {
  import opened ByteStrings
  import opened Pools
  import opened Selection

  /** One run of `connect_task`: its client, its local sleep index, and where it waits. */
  class ConnectTask {
    const client: nat
    var place: Place
    var sleepIndex: nat

    constructor (client: nat)
      ensures this.client == client && place == NotStarted && sleepIndex == 0
    {
      this.client, place, sleepIndex := client, NotStarted, 0;
    }
  }

  /** A client's bounded queue of getdata requests. */
  class RequestQueue {
    var items: seq<Bytes>

    method GetNowait() returns (item: Option<Bytes>)
      modifies this
      ensures if old(items) == [] then item == None && items == []
              else item == Some(old(items)[0]) && items == old(items)[1..]
    {
      if items == [] {
        return None;
      }
      item := Some(items[0]);
      items := items[1..];
    }
  }

  class BitcoinClientManager {
    var connectionPool: seq<nat>
    var disconnectedPool: set<nat>
    var selected: nat

    constructor ()
      ensures connectionPool == [] && disconnectedPool == {} && selected == 0
    {
      connectionPool, disconnectedPool, selected := [], {}, 0;
    }

    /** The pools, and one task as the only one. */
    ghost function View(task: ConnectTask): PoolState
      reads this, task
    {
      PoolState(connectionPool, disconnectedPool, [task.place], [task.sleepIndex])
    }

    // ----- the stretches of connect_task -----

    method TaskStarts(task: ConnectTask)
      requires task.place == NotStarted
      modifies this, task
      ensures Ok(View(task)) == Next([task.client], old(View(task)), Start(0)) && selected == old(selected)
    {
      disconnectedPool := disconnectedPool + {task.client};
      task.sleepIndex := 0;
      task.place := Connecting;
    }

    /** `false` is the KeyError of `set.remove`. */
    method ConnectSucceeds(task: ConnectTask) returns (ok: bool)
      requires task.place == Connecting
      modifies this, task
      ensures selected == old(selected)
      ensures match Next([task.client], old(View(task)), Succeed(0))
              case Ok(after) => ok && View(task) == after
              case KeyError => !ok
    {
      task.sleepIndex := 0;
      if task.client !in disconnectedPool {
        return false;
      }
      disconnectedPool := disconnectedPool - {task.client};
      if task.client !in connectionPool {
        connectionPool := connectionPool + [task.client];
      }
      task.place := Connected;
      return true;
    }

    method ConnectFails(task: ConnectTask, refused: bool)
      requires task.place == Connecting
      modifies this, task
      ensures selected == old(selected)
      ensures Ok(View(task)) == Next([task.client], old(View(task)), if refused then Refuse(0) else Reset(0))
    {
      if refused {
        task.sleepIndex := |SLEEP_TIMES| - 1;
      } else {
        task.sleepIndex := Min(task.sleepIndex + 1, |SLEEP_TIMES| - 1);
      }
      LeavePool(task);
    }

    method ConnectionLost(task: ConnectTask)
      requires task.place == Connected
      modifies this, task
      ensures selected == old(selected)
      ensures Ok(View(task)) == Next([task.client], old(View(task)), Lose(0))
    {
      LeavePool(task);
    }

    method LeavePool(task: ConnectTask)
      modifies this, task`place
      ensures selected == old(selected)
      ensures View(task) == Leave(old(View(task)), 0, task.client, task.sleepIndex)
    {
      hide RemoveFirst;
      if task.client in connectionPool {
        connectionPool := RemoveFirst(connectionPool, task.client);
      } else {
        NotInPool(connectionPool, task.client);
      }
      disconnectedPool := disconnectedPool + {task.client};
      task.place := Sleeping;
    }

    method Wakes(task: ConnectTask)
      requires task.place == Sleeping
      modifies task`place
      ensures Ok(View(task)) == Next([task.client], old(View(task)), Wake(0))
    {
      task.place := Connecting;
    }

    // ----- selection and broadcast -----

    method SelectNextAvailablePeer()
      modifies `selected
      ensures selected == NextIndex(|connectionPool|, old(selected))
    {
      if selected == |connectionPool| - 1 {
        selected := 0;
      } else {
        selected := selected + 1;
      }
    }

    /** `None` is the IndexError. While the pool is empty the caller waits. */
    method GetNextAvailablePeer() returns (client: Option<nat>)
      requires connectionPool != []
      modifies `selected
      ensures selected == NextIndex(|connectionPool|, old(selected))
      ensures client == if selected < |connectionPool| then Some(connectionPool[selected]) else None
    {
      SelectNextAvailablePeer();
      return if selected < |connectionPool| then Some(connectionPool[selected]) else None;
    }

    /** Starts one broadcast task per selected peer; `None` is the IndexError. */
    method ConcurrentBroadcast(broadcastPeerCount: nat) returns (targets: Option<seq<nat>>)
      modifies `selected
      ensures var m, n := Min(broadcastPeerCount, |connectionPool|), |connectionPool|;
        if m == 0 then targets == Some([]) && selected == old(selected)
        else if old(selected) < n then
          && targets == Some(Targets(connectionPool, old(selected), m))
          && selected == IndexAfter(n, old(selected), m)
        else targets == None && selected == old(selected) + 1
    {
      var tasks: seq<nat> := [];
      ghost var n, start := |connectionPool|, selected;
      for i := 0 to Min(broadcastPeerCount, |connectionPool|)
        invariant if start < n then tasks == Targets(connectionPool, start, i) && selected == IndexAfter(n, start, i)
                  else i == 0 && selected == start && tasks == []
      {
        if start < n {
          TargetsAppend(connectionPool, start, i);
        }
        var client := GetNextAvailablePeer();
        if client.None? {
          return None;
        }
        tasks := tasks + [client.value];
      }
      return Some(tasks);
    }

    // ----- the first stretch of reallocate_work_task -----

    method DrainRequests(queue: RequestQueue) returns (drained: seq<Bytes>)
      modifies queue
      ensures drained == old(queue.items) && queue.items == []
    {
      drained := [];
      while true
        invariant drained + queue.items == old(queue.items)
        decreases |queue.items|
      {
        var item := queue.GetNowait();
        if item.None? {
          return;
        }
        drained := drained + [item.value];
      }
    }
  }

  /**
   * A stretch does not depend on the other tasks: stepping the whole state changes the
   * pools and the task's own place and sleep index as stepping the task alone does.
   */
  lemma StretchesAreLocal(owner: seq<nat>, s: PoolState, step: PoolStep)
    requires |owner| == |s.places| && Enabled(s, step)
    ensures var t := step.task;
      var alone := PoolState(s.pool, s.disconnected, [s.places[t]], [s.sleeps[t]]);
      Enabled(alone, step.(task := 0)) &&
      match (Next(owner, s, step), Next([owner[t]], alone, step.(task := 0)))
      case (Ok(all), Ok(one)) =>
        && all.pool == one.pool && all.disconnected == one.disconnected
        && all.places == s.places[t := one.places[0]] && all.sleeps == s.sleeps[t := one.sleeps[0]]
      case (KeyError, KeyError) => true
      case _ => false
  {
    hide RemoveFirst;
  }
}
