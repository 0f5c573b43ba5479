/** The queue of background jobs: every operation is one or more statements on its table. */
module JobQueue {
  import opened Media
  import opened Jobs

  class JobQueue {
    /** Which statements fail, by the order in which they are executed. */
    const fails: nat -> bool

    var open: bool
    var table: Table
    var statements: nat

    constructor (fails: nat -> bool)
      ensures Valid() && open && table == map[] && statements == 0 && this.fails == fails
    {
      this.fails, open, table, statements := fails, true, map[], 0;
    }

    ghost predicate Valid()
      reads `table
    {
      Filed(table)
    }

    /** No statement from now on fails. */
    ghost predicate Healthy()
      reads `open, `statements
    {
      open && forall t: nat | statements <= t :: !fails(t)
    }

    lemma HealthyIsOpen()
      ensures Healthy() ==> open
    {
    }

    method Execute() returns (ok: bool)
      modifies `statements
      ensures statements == old(statements) + 1 && ok == !fails(old(statements))
    {
      ok := !fails(statements);
      statements := statements + 1;
    }

    /** Jobs that were running when the process ended wait again. */
    method RecoverInterruptedJobs() returns (ok: bool)
      requires Valid()
      modifies `table, `statements
      ensures Valid() && table == if ok then Recovered(old(table)) else old(table)
      ensures ok ==> table.Keys == old(table).Keys && forall id | id in table ::
        table[id] == if old(table)[id].state == Running then old(table)[id].(state := Pending) else old(table)[id]
      ensures old(Healthy()) ==> Healthy() && ok
      ensures ok <==> open && !fails(old(statements))
      ensures statements == old(statements) + if open then 1 else 0
    {
      if !open {
        return false;
      }
      ok := Execute();
      if ok {
        table := Recovered(table);
      }
    }

    /** The record can be merged into a pending job, or else inserted: no statement for that fails, and the id is free. */
    predicate CanTake(record: Job)
      reads this
    {
      var free := record.id !in table;
      && open && !fails(statements)
      && (if record.coalescingKey == "" then free
          else PendingFor(table, record.coalescingKey) != {} || (!fails(statements + 1) && free))
    }

    /** A job is merged into a pending one with the same key, never into one that is running. */
    method Enqueue(record: Job) returns (id: Option<JobId>)
      requires Valid()
      modifies `table, `statements
      ensures Valid() && Evolves(old(table), table)
      ensures id.None? ==> table == old(table)
      ensures id.Some? && table == old(table) ==>
        id.value in table && table[id.value].state == Pending && table[id.value].coalescingKey == record.coalescingKey != ""
      ensures id.Some? && table != old(table) ==>
        id.value == record.id && record.id !in old(table) && table == old(table)[record.id := record]
      ensures id.Some? && table != old(table) && record.coalescingKey != "" ==> !HasPending(old(table), record.coalescingKey)
      ensures old(Healthy()) ==> Healthy() && (id.None? ==> record.id in table)
      // It is queued, or merged, exactly when the statements it takes do not fail and its id is free.
      ensures id.Some? <==> old(CanTake(record))
      ensures id.Some? <==>
        && open && !fails(old(statements))
        && ((record.coalescingKey != "" && HasPending(old(table), record.coalescingKey))
            || (record.id !in old(table) && (record.coalescingKey != "" ==> !fails(old(statements) + 1))))
      // Which statements it takes, and when they are enough.
      ensures open && record.coalescingKey == "" ==>
        statements == old(statements) + 1 && (id.Some? <==> !fails(old(statements)) && record.id !in old(table))
      ensures open && record.coalescingKey != "" && !fails(old(statements)) && PendingFor(old(table), record.coalescingKey) == {} ==>
        statements == old(statements) + 2 && (id.Some? <==> !fails(old(statements) + 1) && record.id !in old(table))
      ensures id.Some? && record.coalescingKey != "" && record.state == Pending ==> PendingFor(table, record.coalescingKey) != {}
    {
      if !open {
        return None;
      }
      if record.coalescingKey != "" {
        var found := Execute();
        if !found {
          return None;
        }
        var waiting := set other | other in table && PendingWithKey(table, other, record.coalescingKey);
        assert forall other | PendingWithKey(table, other, record.coalescingKey) :: other in waiting;
        assert waiting == PendingFor(table, record.coalescingKey);
        WaitingIs(table, record.coalescingKey, waiting);
        if waiting != {} {
          var same :| same in waiting;
          return Some(same);
        }
      }
      var inserted := Execute();
      if !inserted || record.id in table {
        return None;
      }
      table := table[record.id := record];
      id := Some(record.id);
      assert record.coalescingKey != "" && record.state == Pending ==> record.id in PendingFor(table, record.coalescingKey);
    }

    /**
     * Marks the first `maxJobs` jobs that are due as running. When a statement fails in between,
     * nothing is returned although the rows before it are marked already.
     */
    method Claim(maxJobs: int, now: int) returns (jobs: seq<Job>, ok: bool, ghost rows: seq<Job>)
      requires Valid()
      modifies `table, `statements
      ensures Valid() && Evolves(old(table), table)
      ensures open && maxJobs > 0 ==> IsSelection(rows, old(table), EligibleIds(old(table), now), maxJobs)
      ensures !open || maxJobs <= 0 ==> rows == [] && statements == old(statements)
      ensures IdsOf(rows) <= EligibleIds(old(table), now)
      ensures table == Started(old(table), IdsOf(rows[..Marked(fails, old(statements), |rows|)]))
      ensures ok <==> open && (maxJobs <= 0 || (!fails(old(statements)) && Marked(fails, old(statements), |rows|) == |rows|))
      ensures jobs == if ok then AsRunning(rows) else []
      ensures ok && maxJobs > 0 ==> statements == old(statements) + 1 + |rows|
      ensures old(Healthy()) ==> Healthy() && ok
      // Nothing is claimed twice or before its time, and what is claimed is marked.
      ensures forall j | j in jobs ::
        j.id in old(table) && old(table)[j.id] == j.(state := Pending) && j.state == Running && (j.notBefore.None? || j.notBefore.value <= now)
      // With room left, everything that is due is claimed.
      ensures ok && |jobs| < maxJobs ==> forall id | id in old(table) && old(table)[id].state == Pending
        && (old(table)[id].notBefore.None? || old(table)[id].notBefore.value <= now) :: exists j | j in jobs :: j.id == id
    {
      hide IsSelection, Evolves, Started, IdsOf, Filed, Marked;
      StartedEvolves(table, {});
      IdsOfAll([]);
      MarkedIsSome(fails, statements, 0);
      rows := [];
      if !open {
        return [], false, [];
      }
      if maxJobs <= 0 {
        return [], true, [];
      }
      ghost var t := statements;
      var selected := Execute();
      var picked := Select(table, EligibleIds(table, now), maxJobs);
      rows := picked;
      SelectionIsPicked(rows, table, EligibleIds(table, now), maxJobs);
      RoomForAll(rows, table, now, maxJobs);
      MarkedIsSome(fails, t, |rows|);
      if !selected {
        return [], false, rows;
      }
      ok := MarkRunning(picked, now);
      jobs := if ok then AsRunning(picked) else [];
    }

    method MarkRunning(rows: seq<Job>, now: int) returns (ok: bool)
      requires Valid() && forall i | 0 <= i < |rows| :: rows[i].id in EligibleIds(table, now)
      modifies `table, `statements
      ensures Valid() && Evolves(old(table), table)
      ensures table == Started(old(table), IdsOf(rows[..Working(fails, old(statements), |rows|)]))
      ensures ok <==> Working(fails, old(statements), |rows|) == |rows|
      ensures ok ==> statements == old(statements) + |rows|
      ensures old(Healthy()) ==> Healthy() && ok
    {
      hide Evolves, Started, IdsOf, Filed, EligibleIds, Working;
      ghost var was, healthy, t := table, Healthy(), statements;
      StartedEvolves(table, {});
      IdsOfAll(rows);
      for i := 0 to |rows|
        invariant table == Started(was, IdsOf(rows[..i])) && statements == t + i
        invariant forall j: nat | t <= j < t + i :: !fails(j)
        invariant healthy ==> Healthy()
      {
        StartedEvolves(was, IdsOf(rows[..i]));
        ok := Execute();
        if !ok {
          WorkingIs(fails, t, |rows|, i);
          return;
        }
        StartOneMore(was, rows[..i], rows[i]);
        assert rows[..i + 1] == rows[..i] + [rows[i]];
        if rows[i].id in table && table[rows[i].id].state == Pending {
          table := table[rows[i].id := table[rows[i].id].(state := Running)];
        }
      }
      WorkingIs(fails, t, |rows|, |rows|);
      StartedEvolves(was, IdsOf(rows[..|rows|]));
      ok := true;
    }

    /** The three ways in which a running job ends; each leaves a job that is not running alone. */
    method MarkSucceeded(id: JobId) returns (ok: bool)
      requires Valid()
      modifies `table, `statements
      ensures Valid() && Evolves(old(table), table)
      ensures !ok || id !in old(table) || old(table)[id].state != Running ==> table == old(table)
      ensures ok && id in old(table) && old(table)[id].state == Running ==>
        table == old(table)[id := old(table)[id].(state := Succeeded, attempts := old(table)[id].attempts + 1)]
      ensures old(Healthy()) ==> Healthy() && ok
      ensures ok <==> open && !fails(old(statements))
      ensures statements == old(statements) + if open then 1 else 0
    {
      if !open {
        return false;
      }
      ok := Execute();
      if ok && IsRunning(table, id) {
        table := table[id := AfterSuccess(table[id])];
      }
    }

    method MarkFailed(id: JobId, retryable: bool) returns (ok: bool)
      requires Valid()
      modifies `table, `statements
      ensures Valid() && Evolves(old(table), table)
      ensures !ok || id !in old(table) || old(table)[id].state != Running ==> table == old(table)
      ensures ok && id in old(table) && old(table)[id].state == Running ==> var was := old(table)[id];
        table == old(table)[id := if retryable && was.attempts + 1 < was.maxAttempts
                                  then was.(state := Pending, attempts := was.attempts + 1, notBefore := None)
                                  else was.(state := Failed, attempts := was.attempts + 1)]
      ensures old(Healthy()) ==> Healthy() && ok
      ensures ok <==> open && !fails(old(statements))
      ensures statements == old(statements) + if open then 1 else 0
    {
      if !open {
        return false;
      }
      ok := Execute();
      if ok && IsRunning(table, id) {
        table := table[id := AfterFailure(table[id], retryable)];
      }
    }

    method MarkCancelled(id: JobId) returns (ok: bool)
      requires Valid()
      modifies `table, `statements
      ensures Valid() && Evolves(old(table), table)
      ensures table == if ok && id in old(table) && (old(table)[id].state == Pending || old(table)[id].state == Running)
        then old(table)[id := old(table)[id].(state := Cancelled)] else old(table)
      ensures old(Healthy()) ==> Healthy() && ok
      ensures ok <==> open && !fails(old(statements))
      ensures statements == old(statements) + if open then 1 else 0
    {
      if !open {
        return false;
      }
      ok := Execute();
      if ok && id in table && !IsTerminal(table[id].state) {
        table := table[id := table[id].(state := Cancelled)];
      }
    }

    /** The number of jobs that wait, or -1. */
    method PendingCount() returns (count: int)
      modifies `statements
      ensures count == if open && !fails(old(statements)) then |set id | id in table && table[id].state == Pending| else -1
      ensures statements == old(statements) + if open then 1 else 0
      ensures old(Healthy()) ==> Healthy() && count >= 0
    {
      if !open {
        return -1;
      }
      var ok := Execute();
      count := if ok then |set id | id in table && table[id].state == Pending| else -1;
    }
  }

  /** How many of the `n` statements from the `t`th on work before one fails. */
  ghost function Working(fails: nat -> bool, t: nat, n: nat): (k: nat)
    ensures k <= n
    decreases n
  {
    if n == 0 || fails(t) then 0 else 1 + Working(fails, t + 1, n - 1)
  }

  lemma {:induction false} WorkingIs(fails: nat -> bool, t: nat, n: nat, k: nat)
    requires k <= n && (forall j: nat | t <= j < t + k :: !fails(j)) && (k < n ==> fails(t + k))
    ensures Working(fails, t, n) == k
    decreases n
  {
    if k > 0 {
      WorkingIs(fails, t + 1, n - 1, k - 1);
    }
  }

  /** How many of `n` selected rows a claim marks whose query is the `t`th statement. */
  ghost function Marked(fails: nat -> bool, t: nat, n: nat): (k: nat)
    ensures k <= n
  {
    if fails(t) then 0 else Working(fails, t + 1, n)
  }

  lemma MarkedIsSome(fails: nat -> bool, t: nat, n: nat)
    ensures fails(t) ==> Marked(fails, t, n) == 0
    ensures !fails(t) ==> Marked(fails, t, n) == Working(fails, t + 1, n)
    ensures Marked(fails, t, 0) == 0
  {
  }

  /** A selection with room left has everything that is due. */
  lemma RoomForAll(rows: seq<Job>, table: Table, now: int, n: nat)
    requires Filed(table) && IsSelection(rows, table, EligibleIds(table, now), n)
    ensures |AsRunning(rows)| < n ==> forall id | id in table && table[id].state == Pending
      && (table[id].notBefore.None? || table[id].notBefore.value <= now) :: exists j | j in AsRunning(rows) :: j.id == id
  {
    if |rows| < n {
      AllSelected(rows, table, EligibleIds(table, now), n);
      forall id | id in EligibleIds(table, now) ensures exists j | j in AsRunning(rows) :: j.id == id {
        assert id in IdsOf(AsRunning(rows)) by { SameIds(rows); }
      }
    }
  }

  predicate IsRunning(table: Table, id: JobId) {
    id in table && table[id].state == Running
  }

  predicate HasPending(table: Table, key: string) {
    exists id | id in table :: table[id].state == Pending && table[id].coalescingKey == key
  }

  lemma WaitingIs(table: Table, key: string, waiting: set<JobId>)
    requires waiting == set id | id in table && PendingWithKey(table, id, key)
    ensures waiting != {} <==> HasPending(table, key)
  {
    if HasPending(table, key) {
      var id :| id in table && table[id].state == Pending && table[id].coalescingKey == key;
      assert id in waiting;
    }
  }

  predicate PendingWithKey(table: Table, id: JobId, key: string) {
    id in table && table[id].state == Pending && table[id].coalescingKey == key
  }

  function AsRunning(jobs: seq<Job>): seq<Job> {
    seq(|jobs|, i requires 0 <= i < |jobs| => jobs[i].(state := Running))
  }

  function AsPending(jobs: seq<Job>): seq<Job> {
    seq(|jobs|, i requires 0 <= i < |jobs| => jobs[i].(state := Pending))
  }

  lemma SameIds(jobs: seq<Job>)
    ensures IdsOf(AsRunning(jobs)) == IdsOf(jobs)
  {
    forall id ensures id in IdsOf(AsRunning(jobs)) <==> id in IdsOf(jobs) {
      if id in IdsOf(jobs) {
        var i :| 0 <= i < |jobs| && jobs[i].id == id;
        assert AsRunning(jobs)[i] in AsRunning(jobs);
      }
    }
  }

  lemma StartOneMore(table: Table, jobs: seq<Job>, job: Job)
    ensures IdsOf(jobs + [job]) == IdsOf(jobs) + {job.id}
    ensures var next := Started(table, IdsOf(jobs));
      Started(table, IdsOf(jobs + [job])) ==
        if job.id in next && next[job.id].state == Pending then next[job.id := next[job.id].(state := Running)] else next
  {
    IdsOfMore(jobs, job);
  }

  /**
   * A retry can put a second pending job beside its follow-up: a job is claimed, another one with
   * its key is queued while it runs, and then it fails and waits again.
   */
  method RetryBesideItsFollowUp(job: Job, followUp: Job) returns (queue: JobQueue)
    requires job.state == followUp.state == Pending && job.id != followUp.id
    requires job.coalescingKey == followUp.coalescingKey != "" && job.notBefore == None
    requires job.attempts + 1 < job.maxAttempts
    ensures !AtMostOnePending(queue.table, job.coalescingKey)
  {
    hide Evolves;
    queue := new JobQueue(_ => false);
    var first := queue.Enqueue(job);
    assert queue.table == map[job.id := job];
    assert EligibleIds(queue.table, 0) == {job.id};
    var claimed, ok, rows := queue.Claim(1, 0);
    assert |EligibleIds(map[job.id := job], 0)| == 1;
    assert rows == [job] && rows[..1] == rows;
    assert queue.table == map[job.id := job.(state := Running)];
    assert PendingFor(queue.table, job.coalescingKey) == {};
    var second := queue.Enqueue(followUp);
    ok := queue.MarkFailed(job.id, true);
    assert job.id in PendingFor(queue.table, job.coalescingKey);
    assert followUp.id in PendingFor(queue.table, job.coalescingKey);
  }
}
