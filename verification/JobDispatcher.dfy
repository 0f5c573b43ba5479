/** The dispatcher: claims due jobs while there are free slots, and books what became of them. */
module JobDispatcher {
  import opened Media
  import opened Jobs
  import opened JobQueue

  datatype Outcome = Done | Broke(retryable: bool)

  /** A job handed to the thread pool, and whether a worker was registered for its kind then. */
  datatype Task = Task(job: Job, known: bool)

  function RunningIds(table: Table): set<JobId> {
    set id | id in table && table[id].state == Running
  }

  /** Every waiting job may start now. */
  ghost predicate AllDue(table: Table, now: int) {
    forall id | id in table && table[id].state == Pending :: Eligible(table[id], now)
  }

  /** The jobs in hand are exactly those the table has as running for them. */
  ghost predicate InHand(pool: map<JobId, Task>, table: Table) {
    forall id | id in pool :: id in table && table[id].state == Running && pool[id].job == table[id]
  }

  /**
   * A job that will succeed as long as its worker does: it did already, or it waits and has a worker,
   * or it is in hand with its worker and nobody cancelled it.
   */
  predicate Promising(id: JobId, table: Table, pool: map<JobId, Task>, flags: map<JobId, bool>, workers: set<nat>) {
    && id in table
    && (|| table[id].state == Succeeded
        || (table[id].state == Pending && table[id].kind in workers)
        || (id in pool && pool[id].known && id in flags && !flags[id]))
  }

  // ----- what a completion and a dispatch do to the table -----

  function AfterOutcome(job: Job, cancelled: bool, outcome: Outcome): Job {
    if cancelled then job.(state := Cancelled)
    else match outcome
      case Done => AfterSuccess(job)
      case Broke(retryable) => AfterFailure(job, retryable)
  }

  lemma CompletedJob(table: Table, pool: map<JobId, Task>, id: JobId, cancelled: bool, outcome: Outcome)
    requires Filed(table) && InHand(pool, table) && id in pool
    ensures var next := table[id := AfterOutcome(table[id], cancelled, outcome)];
      && Filed(next) && Evolves(table, next) && InHand(pool - {id}, next)
      && Load(next, (pool - {id}).Keys) < Load(table, pool.Keys)
      && RunningIds(next) - (pool - {id}).Keys == RunningIds(table) - pool.Keys
    ensures Load(table, (pool - {id}).Keys) < Load(table, pool.Keys)
    ensures InHand(pool - {id}, table) && IsRunning(table, id)
    ensures |pool - {id}| == |pool| - 1
    ensures forall now: int | AllDue(table, now) :: AllDue(table[id := AfterOutcome(table[id], cancelled, outcome)], now)
  {
    hide Load;
    assert (pool - {id}).Keys == pool.Keys - {id};
    var job := AfterOutcome(table[id], cancelled, outcome);
    if !cancelled && outcome.Broke? {
      RetryIsLighter(table[id], outcome.retryable);
    }
    CompletionLowersLoad(table, pool.Keys, id, job);
    CompletionLowersLoad(table, pool.Keys, id, table[id]);
    assert table[id := table[id]] == table;
  }

  /** A job that leaves the hand without its row being changed is stranded. */
  lemma LeftRunning(table: Table, pool: map<JobId, Task>, id: JobId)
    requires InHand(pool, table) && id in pool
    ensures RunningIds(table) - (pool - {id}).Keys == RunningIds(table) - pool.Keys + {id}
    ensures id !in RunningIds(table) - pool.Keys && IsRunning(table, id)
  {
  }

  /** A completion whose outcome was booked, or could not be. */
  lemma BookedJob(table: Table, pool: map<JobId, Task>, id: JobId, cancelled: bool, outcome: Outcome, ok: bool, next: Table)
    requires Filed(table) && InHand(pool, table) && id in pool
    requires next == if ok then table[id := AfterOutcome(table[id], cancelled, outcome)] else table
    ensures Filed(next) && Evolves(table, next) && InHand(pool - {id}, next)
    ensures Load(next, (pool - {id}).Keys) < Load(table, pool.Keys)
    ensures RunningIds(next) - (pool - {id}).Keys == if ok then RunningIds(table) - pool.Keys else RunningIds(table) - pool.Keys + {id}
    ensures id !in RunningIds(table) - pool.Keys && |pool - {id}| == |pool| - 1
    ensures forall now: int | AllDue(table, now) :: AllDue(next, now)
  {
    hide *;
    CompletedJob(table, pool, id, cancelled, outcome);
    LeftRunning(table, pool, id);
    StartedEvolves(table, {});
  }

  lemma DispatchedJobs(table: Table, pool: map<JobId, Task>, ids: set<JobId>, now: int)
    requires Filed(table) && InHand(pool, table) && ids <= EligibleIds(table, now)
    ensures ids !! pool.Keys && InHand(pool, Started(table, ids))
    ensures Load(Started(table, ids), pool.Keys) <= Load(table, pool.Keys)
    ensures Load(Started(table, ids), pool.Keys + ids) == Load(table, pool.Keys)
    ensures RunningIds(Started(table, ids)) - pool.Keys == RunningIds(table) - pool.Keys + ids
    ensures ids !! RunningIds(table)
    ensures forall due: int | AllDue(table, due) :: AllDue(Started(table, ids), due)
  {
    hide Load;
    StartingKeepsLoad(table, pool.Keys, ids);
    StrandingLowersLoad(table, pool.Keys, ids);
  }

  class JobDispatcher {
    const queue: JobQueue
    var workers: set<nat>
    var running: bool
    var maxConcurrency: int
    var cancellations: map<JobId, bool>
    var inflight: int
    var pool: map<JobId, Task>

    constructor (queue: JobQueue)
      requires queue.Valid()
      ensures Valid() && this.queue == queue && pool == map[] && !running && maxConcurrency == 1 && workers == {}
    {
      this.queue := queue;
      workers, running, maxConcurrency, cancellations, inflight, pool := {}, false, 1, map[], 0, map[];
    }

    /** What is counted as in flight is what the pool has in hand, and each such job can be cancelled. */
    ghost predicate Valid()
      reads `maxConcurrency, `inflight, `pool, `cancellations, queue`table
    {
      && queue.Valid() && 1 <= maxConcurrency
      && inflight == |pool| && cancellations.Keys == pool.Keys
      && InHand(pool, queue.table)
    }

    lemma ValidMeans()
      requires Valid()
      ensures queue.Valid() && Filed(queue.table) && 1 <= maxConcurrency && inflight == |pool|
      ensures cancellations.Keys == pool.Keys && InHand(pool, queue.table)
      ensures Stranded() == RunningIds(queue.table) - pool.Keys
    {
    }

    lemma ValidWhen()
      requires queue.Valid() && 1 <= maxConcurrency && inflight == |pool|
      requires cancellations.Keys == pool.Keys && InHand(pool, queue.table)
      ensures Valid() && Stranded() == RunningIds(queue.table) - pool.Keys
    {
    }

    lemma StrandedIsNotInHand(id: JobId)
      requires Valid() && id in Stranded()
      ensures id !in pool && id !in cancellations && id in RunningIds(queue.table)
    {
    }

    lemma IdleIsValid()
      requires queue.Valid() && 1 <= maxConcurrency && inflight == 0 && pool == map[] && cancellations == map[]
      ensures Valid()
    {
    }

    /** Rows marked as running that nobody works on: left behind by a failed statement or an earlier process. */
    function Stranded(): set<JobId>
      reads `pool, queue`table
    {
      RunningIds(queue.table) - pool.Keys
    }

    /** The rows marked as running are those that can be cancelled, and the stranded ones. */
    lemma StrandedRowsMakeTheDifference()
      requires Valid()
      ensures RunningIds(queue.table) == cancellations.Keys + Stranded()
      ensures |RunningIds(queue.table)| == inflight + |Stranded()|
    {
      assert RunningIds(queue.table) == pool.Keys + Stranded();
      assert |pool| == |pool.Keys|;
    }

    predicate OnItsWay(id: JobId)
      reads `workers, `cancellations, `pool, queue`table
    {
      Promising(id, queue.table, pool, cancellations, workers)
    }

    method RegisterWorker(kind: nat)
      requires Valid()
      modifies `workers
      ensures Valid() && workers == old(workers) + {kind}
    {
      workers := workers + {kind};
    }

    /** A lower limit stops no job: it takes effect as jobs complete. */
    method SetMaxConcurrency(n: int)
      requires Valid()
      modifies `maxConcurrency
      ensures Valid() && maxConcurrency == (if n < 1 then 1 else n) && inflight == old(inflight)
    {
      maxConcurrency := if n < 1 then 1 else n;
    }

    /** The job was asked to stop. */
    predicate CanCancel(id: JobId)
      reads `cancellations
    {
      id in cancellations && cancellations[id]
    }

    method RequestCancellation(id: JobId)
      requires Valid()
      modifies `cancellations
      ensures Valid() && cancellations == if id in old(cancellations) then old(cancellations)[id := true] else old(cancellations)
    {
      if id in cancellations {
        cancellations := cancellations[id := true];
      }
    }

    /**
     * Fills the free slots with the jobs that are due first: `rows`. If marking one of them fails,
     * none reaches the pool, and those marked before it are stranded.
     */
    method TryDispatch(now: int) returns (ghost rows: seq<Job>)
      requires Valid()
      modifies `cancellations, `inflight, `pool, queue`table, queue`statements
      ensures Valid() && Evolves(old(queue.table), queue.table)
      ensures Dispatched(queue.fails, old(queue.statements), old(queue.table), old(pool.Keys), now, rows, queue.table, pool.Keys)
      ensures inflight <= (if old(inflight) > maxConcurrency then old(inflight) else maxConcurrency)
      ensures forall id | id in old(cancellations) :: id in cancellations && cancellations[id] == old(cancellations)[id]
      ensures forall id | id in old(pool) :: id in pool && pool[id] == old(pool)[id]
      ensures forall id | id in pool && id !in old(pool) ::
        pool[id].known == (pool[id].job.kind in workers) && id in cancellations && !cancellations[id]
      ensures old(queue.Healthy()) ==> forall id | Promising(id, old(queue.table), old(pool), old(cancellations), workers) :: OnItsWay(id)
      ensures if running && queue.open && old(inflight) < maxConcurrency
        then IsSelection(rows, old(queue.table), EligibleIds(old(queue.table), now), maxConcurrency - old(inflight))
        else rows == []
      ensures Load(queue.table, pool.Keys) <= old(Load(queue.table, pool.Keys))
      ensures old(queue.Healthy()) ==> queue.Healthy() && Stranded() == old(Stranded())
      ensures old(queue.Healthy()) && running && old(inflight) < maxConcurrency && EligibleIds(old(queue.table), now) != {} ==> inflight > old(inflight)
      ensures rows != [] && Marked(queue.fails, old(queue.statements), |rows|) == |rows| ==>
        queue.statements == old(queue.statements) + 1 + |rows|
      ensures forall due: int | AllDue(old(queue.table), due) :: AllDue(queue.table, due)
    {
      hide *;
      queue.HealthyIsOpen();
      if !running || !queue.open || maxConcurrency - inflight <= 0 {
        StartedEvolves(queue.table, {});
        NothingDispatched(queue.fails, queue.statements, queue.table, pool.Keys, now);
        WayIs();
        rows := [];
        return;
      }
      ghost var was, hand, flags, t := queue.table, pool, cancellations, queue.statements;
      ValidMeans();
      rows := ClaimAndHandOver(maxConcurrency - inflight, now);
      ValidMeans();
      if old(queue.Healthy()) {
        StillPromising(queue.fails, t, was, hand, flags, now, rows, queue.table, pool, cancellations, workers);
      }
      WayIs();
    }

    lemma WayIs()
      ensures forall id :: OnItsWay(id) <==> Promising(id, queue.table, pool, cancellations, workers)
    {
    }

    method ClaimAndHandOver(slots: int, now: int) returns (ghost rows: seq<Job>)
      requires Valid() && queue.open && slots > 0
      modifies `cancellations, `inflight, `pool, queue`table, queue`statements
      ensures Valid() && Evolves(old(queue.table), queue.table)
      ensures Dispatched(queue.fails, old(queue.statements), old(queue.table), old(pool.Keys), now, rows, queue.table, pool.Keys)
      ensures old(inflight) <= inflight <= old(inflight) + slots
      ensures forall id | id in old(cancellations) :: id in cancellations && cancellations[id] == old(cancellations)[id]
      ensures forall id | id in old(pool) :: id in pool && pool[id] == old(pool)[id]
      ensures forall id | id in pool && id !in old(pool) ::
        pool[id].known == (pool[id].job.kind in workers) && id in cancellations && !cancellations[id]
      ensures IsSelection(rows, old(queue.table), EligibleIds(old(queue.table), now), slots)
      ensures Load(queue.table, pool.Keys) <= old(Load(queue.table, pool.Keys))
      ensures old(queue.Healthy()) ==> queue.Healthy() && Stranded() == old(Stranded())
      ensures old(queue.Healthy()) && EligibleIds(old(queue.table), now) != {} ==> inflight > old(inflight)
      ensures rows != [] && Marked(queue.fails, old(queue.statements), |rows|) == |rows| ==>
        queue.statements == old(queue.statements) + 1 + |rows|
      ensures forall due: int | AllDue(old(queue.table), due) :: AllDue(queue.table, due)
    {
      hide Evolves, Load, Started, InHand, Filed, AllDue, IsSelection, IdsOf, EligibleIds, Marked, RunningIds, Dispatched,
           AsRunning, Working;
      ghost var was, t := queue.table, queue.statements;
      var jobs, ok;
      jobs, ok, rows := queue.Claim(slots, now);
      DispatchStrands(queue.fails, t, was, pool, now, rows);
      if ok {
        ClaimedRows(was, pool, rows, slots, now);
        assert rows[..|rows|] == rows;
        HandOver(jobs);
      }
    }

    /** The process ends, with whatever it had in hand. */
    method Crash()
      requires Valid()
      modifies `running, `cancellations, `inflight, `pool
      ensures Valid() && !running && pool == map[] && inflight == 0
      ensures Stranded() == RunningIds(queue.table)
    {
      running, cancellations, inflight, pool := false, map[], 0, map[];
    }

    lemma NewJobs(jobs: seq<Job>)
      requires Valid() && IdsOf(jobs) !! pool.Keys
      ensures forall i | 0 <= i < |jobs| :: jobs[i].id !in pool && jobs[i].id !in cancellations
      ensures IdsOf([]) == {}
    {
      NotInHand(jobs, pool.Keys);
    }

    /** Each claimed job gets a cancellation flag and goes to the pool. */
    method HandOver(jobs: seq<Job>)
      requires Valid() && IdsOf(jobs) !! pool.Keys
      requires forall i, j | 0 <= i < j < |jobs| :: jobs[i].id != jobs[j].id
      requires forall i | 0 <= i < |jobs| :: IsRunning(queue.table, jobs[i].id) && queue.table[jobs[i].id] == jobs[i]
      modifies `cancellations, `inflight, `pool
      ensures Valid() && inflight == old(inflight) + |jobs| && pool.Keys == old(pool.Keys) + IdsOf(jobs)
      ensures old(pool.Keys) <= pool.Keys
      ensures forall id | id in old(pool) :: id in pool && pool[id] == old(pool)[id]
      ensures forall id | id in pool && id !in old(pool) ::
        pool[id].known == (pool[id].job.kind in workers) && id in cancellations && !cancellations[id]
      ensures forall id | id in old(cancellations) :: id in cancellations && cancellations[id] == old(cancellations)[id]
    {
      hide IdsOf, Filed, InHand, Valid;
      ghost var was, flags, count := pool, cancellations, inflight;
      NewJobs(jobs);
      for i := 0 to |jobs|
        invariant Valid() && inflight == count + i && pool.Keys == was.Keys + IdsOf(jobs[..i])
        invariant forall id | id in flags :: id in cancellations && cancellations[id] == flags[id]
        invariant forall id | id in was :: id in pool && pool[id] == was[id]
        invariant forall id | id in pool && id !in was :: pool[id].known == (pool[id].job.kind in workers) && id in cancellations && !cancellations[id]
      {
        IdsOfMore(jobs[..i], jobs[i]);
        NotAmongEarlier(jobs, i);
        assert jobs[..i + 1] == jobs[..i] + [jobs[i]];
        HandOne(jobs[i]);
      }
      assert jobs[..|jobs|] == jobs;
    }

    method HandOne(job: Job)
      requires Valid() && job.id !in pool && IsRunning(queue.table, job.id) && queue.table[job.id] == job
      modifies `cancellations, `inflight, `pool
      ensures Valid() && inflight == old(inflight) + 1
      ensures pool == old(pool)[job.id := Task(job, job.kind in workers)]
      ensures cancellations == old(cancellations)[job.id := false]
    {
      hide Filed, InHand;
      OneMoreInHand(pool, queue.table, Task(job, job.kind in workers));
      cancellations := cancellations[job.id := false];
      inflight := inflight + 1;
      pool := pool[job.id := Task(job, job.kind in workers)];
    }

    method Start(now: int) returns (ghost rows: seq<Job>)
      requires Valid()
      modifies `running, `cancellations, `inflight, `pool, queue`table, queue`statements
      ensures Valid() && running && Evolves(old(queue.table), queue.table)
      ensures inflight <= (if old(inflight) > maxConcurrency then old(inflight) else maxConcurrency)
      ensures old(queue.Healthy()) ==> queue.Healthy() && Stranded() == old(Stranded())
      ensures Dispatched(queue.fails, old(queue.statements), old(queue.table), old(pool.Keys), now, rows, queue.table, pool.Keys)
      ensures if !old(running) && queue.open && old(inflight) < maxConcurrency
        then IsSelection(rows, old(queue.table), EligibleIds(old(queue.table), now), maxConcurrency - old(inflight))
        else rows == []
      ensures rows != [] && Marked(queue.fails, old(queue.statements), |rows|) == |rows| ==>
        queue.statements == old(queue.statements) + 1 + |rows|
      ensures forall id | id in old(cancellations) :: id in cancellations && cancellations[id] == old(cancellations)[id]
      ensures forall id | id in pool && id !in old(pool) :: id in cancellations && !cancellations[id]
    {
      hide *;
      StartedEvolves(queue.table, {});
      rows := [];
      if running {
        NothingDispatched(queue.fails, queue.statements, queue.table, pool.Keys, now);
        return;
      }
      running := true;
      rows := TryDispatch(now);
    }

    /**
     * Works off everything that waits before returning. With due jobs and a healthy queue this
     * ends after at most as many completions as the load of the queue, and nothing waits then.
     */
    method Stop(now: int, results: Job -> Outcome) returns (ghost completions: nat)
      requires Valid() && queue.Healthy() && AllDue(queue.table, now)
      modifies `running, `cancellations, `inflight, `pool, queue`table, queue`statements
      ensures Valid() && !running && Evolves(old(queue.table), queue.table) && Stranded() == old(Stranded())
      ensures completions <= old(Load(queue.table, pool.Keys))
      ensures old(running) ==> inflight == 0 && pool == map[]
      ensures old(running) ==> forall id | id in queue.table :: queue.table[id].state != Pending
      ensures old(running) && old(Stranded()) == {} ==> forall id | id in queue.table :: IsTerminal(queue.table[id].state)
      ensures !old(running) ==> queue.table == old(queue.table) && pool == old(pool)
      // What has a worker that is done with it, and was not cancelled, succeeds.
      ensures old(running) ==> forall id | old(OnItsWay(id)) && (forall job: Job | job.id == id :: results(job) == Done) ::
        id in queue.table && queue.table[id].state == Succeeded
    {
      hide *;
      completions := 0;
      StartedEvolves(queue.table, {});
      WayIs();
      if !running {
        return;
      }
      ghost var was, load, stranded := queue.table, Load(queue.table, pool.Keys), Stranded();
      ghost var hand, flags := pool, cancellations;
      while true
        invariant Valid() && running && queue.Healthy() && AllDue(queue.table, now)
        invariant Evolves(was, queue.table) && Stranded() == stranded
        invariant completions + Load(queue.table, pool.Keys) <= load
        invariant forall id | Promising(id, was, hand, flags, workers) && (forall job: Job | job.id == id :: results(job) == Done) ::
          Promising(id, queue.table, pool, cancellations, workers)
        decreases Load(queue.table, pool.Keys), if inflight == 0 then 1 else 0
      {
        ghost var before := queue.table;
        ValidMeans();
        if inflight > 0 {
          var id :| id in pool;
          PromisedInHand(id, queue.table, pool, cancellations, workers);
          Complete(id, cancellations[id], results(pool[id].job), now);
          completions := completions + 1;
        } else {
          var pending := queue.PendingCount();
          SomeDue(queue.table, now);
          if pending <= 0 {
            break;
          }
          var _ := TryDispatch(now);
        }
        EvolvesFurther(was, before, queue.table);
        WayIs();
      }
      NothingLeft();
      forall id | Promising(id, queue.table, pool, cancellations, workers) ensures id in queue.table && queue.table[id].state == Succeeded {
        NothingElseToCome(id, queue.table, cancellations, workers);
      }
      running := false;
    }

    lemma PromisedInHand(id: JobId, table: Table, pool: map<JobId, Task>, flags: map<JobId, bool>, workers: set<nat>)
      requires InHand(pool, table) && Filed(table) && id in pool && flags.Keys == pool.Keys
      ensures pool[id].job.id == id
      ensures Promising(id, table, pool, flags, workers) ==> !flags[id]
    {
    }

    lemma NothingElseToCome(id: JobId, table: Table, flags: map<JobId, bool>, workers: set<nat>)
      requires Promising(id, table, map[], flags, workers) && forall x | x in table :: table[x].state != Pending
      ensures id in table && table[id].state == Succeeded
    {
    }

    lemma NothingLeft()
      requires Valid() && inflight == 0
      ensures pool == map[]
      ensures Stranded() == {} && (forall id | id in queue.table :: queue.table[id].state != Pending) ==>
        forall id | id in queue.table :: IsTerminal(queue.table[id].state)
    {
      assert |pool| == 0;
      if Stranded() == {} {
        forall id | id in queue.table ensures queue.table[id].state != Running {
          assert id !in Stranded();
        }
      }
    }

    // ----- completions -----

    /**
     * The completion of a job, as its callback books it: whatever the worker returned, a set
     * cancellation flag wins. Then the freed slot is filled.
     */
    method Complete(id: JobId, cancelled: bool, outcome: Outcome, now: int)
      requires Valid() && id in pool && (cancelled ==> cancellations[id])
      modifies `cancellations, `inflight, `pool, queue`table, queue`statements
      ensures Valid() && Evolves(old(queue.table), queue.table)
      ensures Load(queue.table, pool.Keys) < old(Load(queue.table, pool.Keys))
      ensures inflight <= (if old(inflight) > maxConcurrency then old(inflight) - 1 else maxConcurrency)
      ensures old(queue.Healthy()) ==> queue.Healthy() && Stranded() == old(Stranded())
      ensures forall due: int | AllDue(old(queue.table), due) :: AllDue(queue.table, due)
      ensures old(queue.Healthy()) ==>
        forall x | Promising(x, old(queue.table), old(pool), old(cancellations), workers) && (x != id || (!cancelled && outcome == Done)) :: OnItsWay(x)
    {
      hide *;
      ghost var was, hand, flags := queue.table, pool, cancellations;
      queue.HealthyIsOpen();
      ValidMeans();
      Finish(id, cancelled, outcome);
      ghost var finished := queue.table;
      forall x | queue.open && !queue.fails(old(queue.statements)) && Promising(x, was, hand, flags, workers) && (x != id || (!cancelled && outcome == Done))
        ensures Promising(x, finished, pool, cancellations, workers)
      {
        FinishedPromise(was, hand, flags, workers, id, cancelled, outcome, finished, pool, cancellations, x);
      }
      var _ := TryDispatch(now);
      EvolvesFurther(was, finished, queue.table);
    }

    method Mark(id: JobId, cancelled: bool, outcome: Outcome) returns (ok: bool)
      requires queue.Valid() && IsRunning(queue.table, id)
      modifies queue`table, queue`statements
      ensures queue.Valid()
      ensures queue.table == if ok then old(queue.table)[id := AfterOutcome(old(queue.table)[id], cancelled, outcome)] else old(queue.table)
      ensures ok <==> queue.open && !queue.fails(old(queue.statements))
      ensures old(queue.Healthy()) ==> queue.Healthy() && ok
    {
      hide Evolves;
      if cancelled {
        ok := queue.MarkCancelled(id);
      } else if outcome.Broke? {
        ok := queue.MarkFailed(id, outcome.retryable);
      } else {
        ok := queue.MarkSucceeded(id);
      }
    }

    /**
     * Books the outcome; the job leaves the hand even if its row could not be changed, and is stranded
     * then. A set flag wins over the result; a job without a worker fails for good.
     */
    method Finish(id: JobId, cancelled: bool, outcome: Outcome)
      requires Valid() && id in pool
      modifies `cancellations, `inflight, `pool, queue`table, queue`statements
      ensures Valid() && Evolves(old(queue.table), queue.table)
      ensures id in old(queue.table) && id !in old(Stranded())
      ensures var marked := queue.open && !queue.fails(old(queue.statements));
        && (!marked ==> queue.table == old(queue.table) && Stranded() == old(Stranded()) + {id})
        && (marked ==> queue.table == old(queue.table)[id := queue.table[id]] && Stranded() == old(Stranded())
                       && IsBooked(old(queue.table)[id], old(pool)[id].known, cancelled, outcome, queue.table[id]))
      ensures Load(queue.table, pool.Keys) < old(Load(queue.table, pool.Keys))
      ensures pool == old(pool) - {id} && cancellations == old(cancellations) - {id} && inflight == old(inflight) - 1
      ensures old(queue.Healthy()) ==> queue.Healthy() && Stranded() == old(Stranded())
      ensures forall due: int | AllDue(old(queue.table), due) :: AllDue(queue.table, due)
    {
      hide *;
      ValidMeans();
      LeftRunning(queue.table, pool, id);
      FlagsWithout(pool, cancellations, id);
      ghost var was := queue.table;
      var ok := Mark(id, cancelled, Reported(pool[id], outcome));
      BookedJob(was, pool, id, cancelled, Reported(pool[id], outcome), ok, queue.table);
      OutcomeIsBooked(pool[id], was[id], cancelled, outcome);
      Release(id);
      ValidWhen();
    }

    method Release(id: JobId)
      modifies `cancellations, `inflight, `pool
      ensures pool == old(pool) - {id} && cancellations == old(cancellations) - {id} && inflight == old(inflight) - 1
    {
      pool, cancellations, inflight := pool - {id}, cancellations - {id}, inflight - 1;
    }
  }

  /**
   * What a completion makes of a job: a set flag cancels it, whatever the worker returned; a worker
   * that is done lets it succeed; a retryable failure with attempts left puts it back; any other
   * failure, and a missing worker, fail it.
   */
  predicate IsBooked(was: Job, known: bool, cancelled: bool, outcome: Outcome, now: Job) {
    && now == was.(state := now.state, attempts := now.attempts, notBefore := now.notBefore)
    && now.attempts == (if cancelled then was.attempts else was.attempts + 1)
    && (cancelled ==> now.state == Cancelled && now.notBefore == was.notBefore)
    && (!cancelled && known && outcome.Done? ==> now.state == Succeeded && now.notBefore == was.notBefore)
    && (!cancelled && known && outcome == Broke(true) && was.attempts + 1 < was.maxAttempts ==> now.state == Pending && now.notBefore == None)
    && (!cancelled && (!known || outcome.Broke?) && !(known && outcome == Broke(true) && was.attempts + 1 < was.maxAttempts) ==>
          now.state == Failed && now.notBefore == was.notBefore)
  }

  /** A completion takes no other job off its way, and its own only if it was cancelled, or its worker failed. */
  lemma FinishedPromise(was: Table, hand: map<JobId, Task>, flags: map<JobId, bool>, workers: set<nat>, id: JobId, cancelled: bool, outcome: Outcome,
                        table: Table, pool: map<JobId, Task>, cancellations: map<JobId, bool>, x: JobId)
    requires InHand(hand, was) && id in hand && id in was && id in table
    requires table == was[id := table[id]] && IsBooked(was[id], hand[id].known, cancelled, outcome, table[id])
    requires pool == hand - {id} && cancellations == flags - {id}
    requires Promising(x, was, hand, flags, workers) && (x != id || (!cancelled && outcome == Done))
    ensures Promising(x, table, pool, cancellations, workers)
  {
  }

  lemma OutcomeIsBooked(task: Task, job: Job, cancelled: bool, outcome: Outcome)
    ensures IsBooked(job, task.known, cancelled, outcome, AfterOutcome(job, cancelled, Reported(task, outcome)))
  {
  }

  lemma FlagsWithout(pool: map<JobId, Task>, flags: map<JobId, bool>, id: JobId)
    requires flags.Keys == pool.Keys
    ensures (flags - {id}).Keys == (pool - {id}).Keys
  {
    assert (flags - {id}).Keys == flags.Keys - {id} && (pool - {id}).Keys == pool.Keys - {id};
  }

  lemma SomeDue(table: Table, now: int)
    requires AllDue(table, now)
    ensures OpenIds(table, {}) != {} <==> EligibleIds(table, now) != {}
    ensures |OpenIds(table, {})| == 0 ==> forall id | id in table :: table[id].state != Pending
  {
    assert OpenIds(table, {}) == EligibleIds(table, now);
    if |OpenIds(table, {})| == 0 {
      forall id | id in table ensures table[id].state != Pending {
        assert id !in OpenIds(table, {});
      }
    }
  }

  /**
   * What a dispatch that picked `rows`, with its query as the `t`th statement, makes of the table
   * and of what is in hand. It strands rows exactly when one of the updates fails after at least
   * one worked.
   */
  ghost predicate Dispatched(fails: nat -> bool, t: nat, was: Table, hand: set<JobId>, now: int, rows: seq<Job>,
                             table: Table, inHand: set<JobId>) {
    var k := Marked(fails, t, |rows|);
    var marked := IdsOf(rows[..k]);
    && marked <= EligibleIds(was, now) && table == Started(was, marked)
    && inHand == hand + (if k == |rows| then marked else {})
    && RunningIds(table) - inHand == RunningIds(was) - hand + (if k == |rows| then {} else marked)
    && (RunningIds(table) - inHand != RunningIds(was) - hand <==> 0 < k < |rows|)
  }

  lemma NothingDispatched(fails: nat -> bool, t: nat, was: Table, hand: set<JobId>, now: int)
    ensures Dispatched(fails, t, was, hand, now, [], was, hand)
  {
    StartedEvolves(was, {});
    IdsOfAll([]);
  }

  lemma DispatchStrands(fails: nat -> bool, t: nat, was: Table, pool: map<JobId, Task>, now: int, rows: seq<Job>)
    requires Filed(was) && InHand(pool, was) && IdsOf(rows) <= EligibleIds(was, now)
    ensures var k := Marked(fails, t, |rows|); var table := Started(was, IdsOf(rows[..k]));
      var inHand := if k == |rows| then pool.Keys + IdsOf(rows) else pool.Keys;
      && Dispatched(fails, t, was, pool.Keys, now, rows, table, inHand)
      && InHand(pool, table) && Load(table, inHand) <= Load(was, pool.Keys)
      && (k == |rows| ==> RunningIds(table) - inHand == RunningIds(was) - pool.Keys)
      && (forall due: int | AllDue(was, due) :: AllDue(table, due))
    ensures fails(t) && Marked(fails, t, |rows|) == |rows| ==> rows == [] && IdsOf(rows) == {}
  {
    hide Started, Filed, EligibleIds, Load, InHand, AllDue;
    var k := Marked(fails, t, |rows|);
    SomeOfTheRows(rows, k);
    DispatchedJobs(was, pool, IdsOf(rows[..k]), now);
    if k == |rows| { assert rows[..k] == rows; }
  }

  /** Claiming takes no job off its way, if it strands none. */
  lemma StillPromising(fails: nat -> bool, t: nat, was: Table, hand: map<JobId, Task>, flags: map<JobId, bool>, now: int, rows: seq<Job>,
                       table: Table, pool: map<JobId, Task>, cancellations: map<JobId, bool>, workers: set<nat>)
    requires Dispatched(fails, t, was, hand.Keys, now, rows, table, pool.Keys)
    requires RunningIds(table) - pool.Keys == RunningIds(was) - hand.Keys
    requires InHand(hand, was) && InHand(pool, table)
    requires forall x | x in hand :: x in pool && pool[x] == hand[x]
    requires forall x | x in flags :: x in cancellations && cancellations[x] == flags[x]
    requires forall x | x in pool && x !in hand :: pool[x].known == (pool[x].job.kind in workers) && x in cancellations && !cancellations[x]
    ensures forall id | Promising(id, was, hand, flags, workers) :: Promising(id, table, pool, cancellations, workers)
  {
    hide Marked, IdsOf, EligibleIds;
    forall id | Promising(id, was, hand, flags, workers)
      ensures Promising(id, table, pool, cancellations, workers)
    {
      if was[id].state == Pending && table[id].state == Running {
        assert id in RunningIds(table) && id !in RunningIds(was);
        assert id in pool && id !in hand;
      }
    }
  }

  /** The claimed rows, marked as running, can be handed to the pool. */
  lemma ClaimedRows(was: Table, pool: map<JobId, Task>, rows: seq<Job>, n: nat, now: int)
    requires InHand(pool, was) && Filed(was) && IsSelection(rows, was, EligibleIds(was, now), n)
    requires IdsOf(rows) <= EligibleIds(was, now)
    ensures var jobs := AsRunning(rows); var table := Started(was, IdsOf(rows));
      && IdsOf(jobs) == IdsOf(rows) && IdsOf(jobs) !! pool.Keys && |jobs| <= n
      && (forall i, j | 0 <= i < j < |jobs| :: jobs[i].id != jobs[j].id)
      && (forall i | 0 <= i < |jobs| :: IsRunning(table, jobs[i].id) && table[jobs[i].id] == jobs[i])
      && (n > 0 && EligibleIds(was, now) != {} ==> |jobs| > 0)
  {
    hide Load;
    SelectionIsPicked(rows, was, EligibleIds(was, now), n);
    PendingAgain(rows, was, now);
    SameIds(rows);
    DispatchedJobs(was, pool, IdsOf(rows), now);
    ClaimedIds(AsRunning(rows), was, EligibleIds(was, now), n);
  }

  lemma SomeOfTheRows(rows: seq<Job>, k: nat)
    requires k <= |rows|
    ensures IdsOf(rows[..k]) <= IdsOf(rows) && (IdsOf(rows[..k]) == {} <==> k == 0)
  {
    if k > 0 { assert rows[..k][0] in rows[..k] && rows[..k][0].id in IdsOf(rows[..k]); }
    assert forall r | r in rows[..k] :: r in rows;
  }

  /** Selected rows are pending, so marking them and taking the mark back changes nothing. */
  lemma PendingAgain(rows: seq<Job>, table: Table, now: int)
    requires IdsOf(rows) <= EligibleIds(table, now)
    requires forall i | 0 <= i < |rows| :: rows[i].id in table && table[rows[i].id] == rows[i]
    ensures AsPending(AsRunning(rows)) == rows
  {
    IdsOfAll(rows);
  }

  /** Without a worker a job fails for good. */
  function Reported(task: Task, outcome: Outcome): Outcome {
    if task.known then outcome else Broke(false)
  }

  lemma NotInHand(jobs: seq<Job>, ids: set<JobId>)
    requires IdsOf(jobs) !! ids
    ensures IdsOf([]) == {}
    ensures forall i | 0 <= i < |jobs| :: jobs[i].id !in ids
  {
    IdsOfAll(jobs);
  }

  lemma NotAmongEarlier(jobs: seq<Job>, i: nat)
    requires i < |jobs| && forall j, k | 0 <= j < k < |jobs| :: jobs[j].id != jobs[k].id
    ensures jobs[i].id !in IdsOf(jobs[..i])
  {
    IdsOfAll(jobs[..i]);
  }

  lemma OneMoreInHand(pool: map<JobId, Task>, table: Table, task: Task)
    requires InHand(pool, table) && IsRunning(table, task.job.id) && table[task.job.id] == task.job
    ensures InHand(pool[task.job.id := task], table)
  {
  }

  /** The claimed jobs are rows that are running now. */
  lemma ClaimedIds(jobs: seq<Job>, was: Table, from: set<JobId>, n: nat)
    requires IsSelection(AsPending(jobs), was, from, n) && forall i | 0 <= i < |jobs| :: jobs[i].state == Running
    requires forall id | id in from && id in was :: was[id].state == Pending
    ensures IdsOf(jobs) <= from && (n > 0 && from != {} ==> jobs != [])
    ensures forall i, j | 0 <= i < j < |jobs| :: jobs[i].id != jobs[j].id
    ensures forall i | 0 <= i < |jobs| :: jobs[i].id in was && IsRunning(Started(was, IdsOf(jobs)), jobs[i].id)
    ensures forall i | 0 <= i < |jobs| :: Started(was, IdsOf(jobs))[jobs[i].id] == jobs[i]
    ensures |jobs| <= n
  {
    var rows := AsPending(jobs);
    SelectionIsPicked(rows, was, from, n);
    IdsOfAll(jobs);
    forall i | 0 <= i < |jobs|
      ensures rows[i].id == jobs[i].id && jobs[i].id in from && jobs[i].id in was && was[jobs[i].id] == rows[i]
    {
    }
    assert forall i, j | 0 <= i < j < |jobs| :: rows[i].id != rows[j].id;
  }

  // ----- how rows are stranded -----

  /** A dispatcher that has not started, with these two jobs in its queue. */
  method TwoQueued(fails: nat -> bool, a: Job, b: Job) returns (dispatcher: JobDispatcher)
    requires a.id != b.id && a.coalescingKey == b.coalescingKey == "" && !fails(0) && !fails(1)
    ensures fresh(dispatcher) && fresh(dispatcher.queue) && dispatcher.Valid() && !dispatcher.running && dispatcher.pool.Keys == {}
    ensures dispatcher.inflight == 0 && dispatcher.maxConcurrency == 2 && dispatcher.queue.open
    ensures dispatcher.queue.fails == fails && dispatcher.queue.statements == 2
    ensures dispatcher.queue.table == map[][a.id := a][b.id := b] && dispatcher.workers == {a.kind}
  {
    hide *;
    var queue := new JobQueue(fails);
    var id := queue.Enqueue(a);
    id := queue.Enqueue(b);
    dispatcher := new JobDispatcher(queue);
    dispatcher.SetMaxConcurrency(2);
    dispatcher.RegisterWorker(a.kind);
  }

  /** Two jobs are claimed, and marking the second one fails: the first runs for nobody. */
  method AFailedClaimStrands(a: Job, b: Job) returns (dispatcher: JobDispatcher)
    requires a.id != b.id && a.state == b.state == Pending
    requires a.coalescingKey == b.coalescingKey == "" && a.notBefore == b.notBefore == None
    ensures dispatcher.cancellations == map[] && RunningIds(dispatcher.queue.table) != {}
  {
    hide *;
    dispatcher := TwoQueued(t => t == 4, a, b);
    ghost var was := dispatcher.queue.table;
    var rows := dispatcher.Start(0);
    SecondUpdateFails(a, b, was, dispatcher.queue.fails, 2, 0, rows, dispatcher.queue.table, dispatcher.pool.Keys);
    dispatcher.ValidMeans();
  }

  lemma SecondUpdateFails(a: Job, b: Job, was: Table, fails: nat -> bool, t: nat, now: int, rows: seq<Job>, table: Table, inHand: set<JobId>)
    requires was == map[][a.id := a][b.id := b] && a.id != b.id
    requires a.state == b.state == Pending && a.notBefore == b.notBefore == None
    requires !fails(t) && !fails(t + 1) && fails(t + 2)
    requires IsSelection(rows, was, EligibleIds(was, now), 2) && Dispatched(fails, t, was, {}, now, rows, table, inHand)
    ensures inHand == {} && RunningIds(table) != {}
  {
    hide Started, IdsOf, ClaimedBefore, Working, EligibleIds;
    BothEligible(a, b, was, now);
    MarkedFirst(fails, t);
  }

  lemma BothEligible(a: Job, b: Job, was: Table, now: int)
    requires was == map[][a.id := a][b.id := b] && a.id != b.id
    requires a.state == b.state == Pending && a.notBefore == b.notBefore == None
    ensures |EligibleIds(was, now)| == 2 && RunningIds(was) == {}
  {
    assert EligibleIds(was, now) == {a.id, b.id};
  }

  lemma MarkedFirst(fails: nat -> bool, t: nat)
    requires !fails(t) && !fails(t + 1) && fails(t + 2)
    ensures Marked(fails, t, 2) == 1
  {
    assert Working(fails, t + 1, 2) == 1 + Working(fails, t + 2, 1);
  }

  method TwoRunning(fails: nat -> bool, a: Job, b: Job) returns (dispatcher: JobDispatcher)
    requires a.id != b.id && a.state == b.state == Pending && forall t: nat | t < 5 :: !fails(t)
    requires a.coalescingKey == b.coalescingKey == "" && a.notBefore == b.notBefore == None
    ensures fresh(dispatcher) && fresh(dispatcher.queue) && dispatcher.Valid() && a.id in dispatcher.pool
    ensures dispatcher.queue.open && dispatcher.queue.fails == fails && dispatcher.queue.statements == 5
  {
    hide *;
    dispatcher := TwoQueued(fails, a, b);
    ghost var was := dispatcher.queue.table;
    var rows := dispatcher.Start(0);
    BothUpdatesWork(a, b, was, dispatcher.queue.fails, 2, 0, rows, dispatcher.queue.table, dispatcher.pool.Keys);
  }

  /** A job runs, and the statement that books its success fails: its row stays running for nobody. */
  method AFailedMarkStrands(a: Job, b: Job) returns (dispatcher: JobDispatcher)
    requires a.id != b.id && a.state == b.state == Pending
    requires a.coalescingKey == b.coalescingKey == "" && a.notBefore == b.notBefore == None
    ensures a.id !in dispatcher.cancellations && a.id in RunningIds(dispatcher.queue.table)
  {
    hide *;
    dispatcher := TwoRunning(t => t == 5, a, b);
    dispatcher.Finish(a.id, false, Done);
    dispatcher.StrandedIsNotInHand(a.id);
  }

  lemma BothUpdatesWork(a: Job, b: Job, was: Table, fails: nat -> bool, t: nat, now: int, rows: seq<Job>, table: Table, inHand: set<JobId>)
    requires was == map[][a.id := a][b.id := b] && a.id != b.id
    requires a.state == b.state == Pending && a.notBefore == b.notBefore == None
    requires !fails(t) && !fails(t + 1) && !fails(t + 2)
    requires IsSelection(rows, was, EligibleIds(was, now), 2) && Dispatched(fails, t, was, {}, now, rows, table, inHand)
    ensures |rows| == Marked(fails, t, |rows|) == 2 && a.id in inHand
  {
    hide Started, ClaimedBefore, Working, EligibleIds, RunningIds;
    BothEligible(a, b, was, now);
    MarkedBoth(fails, t);
    assert rows[..2] == rows;
    SelectionIsPicked(rows, was, EligibleIds(was, now), 2);
    AllSelected(a, b, was, now, rows);
  }

  lemma AllSelected(a: Job, b: Job, was: Table, now: int, rows: seq<Job>)
    requires was == map[][a.id := a][b.id := b] && a.id != b.id && |rows| == 2
    requires forall i | 0 <= i < |rows| :: rows[i].id in EligibleIds(was, now) && was[rows[i].id] == rows[i]
    requires rows[0].id != rows[1].id
    ensures a.id in IdsOf(rows)
  {
    assert rows[0].id in IdsOf(rows) && rows[1].id in IdsOf(rows);
  }

  lemma MarkedBoth(fails: nat -> bool, t: nat)
    requires !fails(t) && !fails(t + 1) && !fails(t + 2)
    ensures Marked(fails, t, 2) == 2
  {
    assert Working(fails, t + 1, 2) == 1 + Working(fails, t + 2, 1);
    assert Working(fails, t + 2, 1) == 1 + Working(fails, t + 3, 0);
  }
}
