/**
 * Background jobs as rows of a table: their life cycle, the order in which they are claimed and
 * the amount of work a table still stands for.
 */
module Jobs {
  import opened Media
  import opened IdOrder

  type JobId = Id

  datatype State = Pending | Running | Succeeded | Failed | Cancelled

  /** Lower priority numbers run first; times are in milliseconds. */
  datatype Job = Job(id: JobId, kind: nat, priority: int, state: State, coalescingKey: string,
                     attempts: int, maxAttempts: int, createdAt: Option<int>, notBefore: Option<int>)

  type Table = map<JobId, Job>

  predicate IsTerminal(state: State) {
    state == Succeeded || state == Failed || state == Cancelled
  }

  /** Every row is filed under its own id. */
  ghost predicate Filed(table: Table) {
    forall id | id in table :: table[id].id == id
  }

  // ----- the order of work -----

  predicate RunsBefore(a: Job, b: Job) {
    if a.priority != b.priority then a.priority < b.priority
    else if a.createdAt != b.createdAt then
      a.createdAt.Some? && (b.createdAt.None? || a.createdAt.value < b.createdAt.value)
    else Before(a.id, b.id)
  }

  /** The database orders a missing time before every other. */
  predicate ClaimedBefore(a: Job, b: Job) {
    if a.priority != b.priority then a.priority < b.priority
    else if a.createdAt != b.createdAt then
      b.createdAt.Some? && (a.createdAt.None? || a.createdAt.value < b.createdAt.value)
    else Before(a.id, b.id)
  }

  /** The database agrees with the documented order exactly on jobs that both have, or both lack, a time. */
  lemma OrdersAgreeExactlyWhen(a: Job, b: Job)
    requires a.id != b.id
    ensures (ClaimedBefore(a, b) <==> RunsBefore(a, b)) <==> a.priority != b.priority || a.createdAt.Some? == b.createdAt.Some?
  {
  }

  lemma ClaimOrderIsTotal(a: Job, b: Job)
    ensures a.id != b.id ==> ClaimedBefore(a, b) || ClaimedBefore(b, a)
    ensures !ClaimedBefore(a, a)
  {
    BeforeIsTotal(a.id, b.id);
    BeforeIsStrict(a.id);
  }

  lemma ClaimOrderIsTransitive(a: Job, b: Job, c: Job)
    requires ClaimedBefore(a, b) && ClaimedBefore(b, c)
    ensures ClaimedBefore(a, c)
  {
    if Before(a.id, b.id) && Before(b.id, c.id) {
      BeforeIsTransitive(a.id, b.id, c.id);
    }
  }

  // ----- claiming -----

  predicate Eligible(job: Job, now: int) {
    job.state == Pending && (job.notBefore.None? || job.notBefore.value <= now)
  }

  function EligibleIds(table: Table, now: int): set<JobId> {
    set id | id in table && Eligible(table[id], now)
  }

  function IdsOf(jobs: seq<Job>): set<JobId> {
    set job | job in jobs :: job.id
  }

  /** The first `n` of these rows, in claim order. */
  ghost predicate IsSelection(jobs: seq<Job>, table: Table, from: set<JobId>, n: nat) {
    && |jobs| == (if |from| < n then |from| else n)
    && (forall i | 0 <= i < |jobs| :: jobs[i].id in from && jobs[i].id in table && table[jobs[i].id] == jobs[i])
    && (forall i, j | 0 <= i < j < |jobs| :: ClaimedBefore(jobs[i], jobs[j]))
    && (forall i, id | 0 <= i < |jobs| && id in from && id in table && id !in IdsOf(jobs) :: ClaimedBefore(jobs[i], table[id]))
  }

  predicate IsEarliest(id: JobId, table: Table, from: set<JobId>) {
    id in from && id in table && forall other | other in from && other in table && other != id :: ClaimedBefore(table[id], table[other])
  }

  lemma {:induction false} EarliestExists(table: Table, from: set<JobId>)
    requires Filed(table) && from <= table.Keys && from != {}
    ensures exists id :: id in from && IsEarliest(id, table, from)
  {
    var x :| x in from;
    var rest := from - {x};
    if rest == {} {
      assert from == {x};
      assert IsEarliest(x, table, from);
    } else {
      EarliestExists(table, rest);
      var y :| y in rest && IsEarliest(y, table, rest);
      assert IsEarliest(y, table, rest);
      ClaimOrderIsTotal(table[x], table[y]);
      if ClaimedBefore(table[x], table[y]) {
        forall z | z in from && z != x ensures ClaimedBefore(table[x], table[z]) {
          if z != y { ClaimOrderIsTransitive(table[x], table[y], table[z]); }
        }
        assert IsEarliest(x, table, from);
      } else {
        assert IsEarliest(y, table, from);
      }
    }
  }

  lemma IdsOfMore(jobs: seq<Job>, job: Job)
    ensures IdsOf(jobs + [job]) == IdsOf(jobs) + {job.id}
  {
    assert forall j :: j in jobs + [job] <==> j in jobs || j == job;
  }

  lemma IdsOfAll(jobs: seq<Job>)
    ensures IdsOf([]) == {}
    ensures forall i | 0 <= i < |jobs| :: jobs[i].id in IdsOf(jobs)
    ensures forall id | id in IdsOf(jobs) :: exists i :: 0 <= i < |jobs| && jobs[i].id == id
  {
  }

  /** So far `jobs` were picked, `rest` not yet. */
  ghost predicate Picking(jobs: seq<Job>, rest: set<JobId>, table: Table, from: set<JobId>) {
    && rest <= from && IdsOf(jobs) == from - rest && |jobs| + |rest| == |from|
    && (forall i | 0 <= i < |jobs| :: jobs[i].id in table && table[jobs[i].id] == jobs[i])
    && (forall i, j | 0 <= i < j < |jobs| :: ClaimedBefore(jobs[i], jobs[j]))
    && (forall i, id | 0 <= i < |jobs| && id in rest && id in table :: ClaimedBefore(jobs[i], table[id]))
  }

  lemma PickOne(jobs: seq<Job>, rest: set<JobId>, table: Table, from: set<JobId>, next: JobId)
    requires Filed(table) && Picking(jobs, rest, table, from) && IsEarliest(next, table, rest)
    ensures Picking(jobs + [table[next]], rest - {next}, table, from)
  {
    hide IdsOf, ClaimedBefore;
    IdsOfMore(jobs, table[next]);
  }

  lemma PickedEnough(jobs: seq<Job>, rest: set<JobId>, table: Table, from: set<JobId>, n: nat)
    requires from <= table.Keys && Picking(jobs, rest, table, from) && |jobs| <= n && (|jobs| == n || rest == {})
    ensures IsSelection(jobs, table, from, n)
  {
    hide IdsOf, ClaimedBefore;
    IdsOfAll(jobs);
  }

  /** What the ordered and limited query returns. */
  method Select(table: Table, from: set<JobId>, n: nat) returns (jobs: seq<Job>)
    requires Filed(table) && from <= table.Keys
    ensures IsSelection(jobs, table, from, n)
  {
    hide Picking, IsSelection;
    jobs := [];
    var rest := from;
    PickNone(table, from);
    while |jobs| < n && rest != {}
      invariant |jobs| <= n && rest <= from && Picking(jobs, rest, table, from)
      decreases |rest|
    {
      EarliestExists(table, rest);
      var next :| next in rest && IsEarliest(next, table, rest);
      PickOne(jobs, rest, table, from, next);
      jobs := jobs + [table[next]];
      rest := rest - {next};
    }
    PickedEnough(jobs, rest, table, from, n);
  }

  lemma PickNone(table: Table, from: set<JobId>)
    ensures Picking([], from, table, from)
  {
  }

  lemma SelectionIsPicked(jobs: seq<Job>, table: Table, from: set<JobId>, n: nat)
    requires IsSelection(jobs, table, from, n)
    ensures forall i | 0 <= i < |jobs| :: jobs[i].id in from && jobs[i].id in table && table[jobs[i].id] == jobs[i]
    ensures IdsOf(jobs) <= from && |jobs| <= n
    ensures n > 0 && from != {} ==> jobs != []
    ensures forall i, j | 0 <= i < j < |jobs| :: jobs[i].id != jobs[j].id
  {
    forall i, j | 0 <= i < j < |jobs| ensures jobs[i].id != jobs[j].id {
      ClaimOrderIsTotal(jobs[i], jobs[i]);
    }
  }

  lemma {:induction false} IdsCounted(jobs: seq<Job>)
    requires forall i, j | 0 <= i < j < |jobs| :: jobs[i].id != jobs[j].id
    ensures |IdsOf(jobs)| == |jobs|
  {
    if jobs != [] {
      var rest, last := jobs[..|jobs| - 1], jobs[|jobs| - 1];
      IdsCounted(rest);
      IdsOfMore(rest, last);
      assert rest + [last] == jobs;
      assert last.id !in IdsOf(rest);
    }
  }

  /** With room left, a selection has all of them. */
  lemma AllSelected(jobs: seq<Job>, table: Table, from: set<JobId>, n: nat)
    requires IsSelection(jobs, table, from, n) && |jobs| < n
    ensures IdsOf(jobs) == from
  {
    SelectionIsPicked(jobs, table, from, n);
    IdsCounted(jobs);
    SubsetOfSameSize(IdsOf(jobs), from);
  }

  lemma SubsetOfSameSize(a: set<JobId>, b: set<JobId>)
    requires a <= b && |a| == |b|
    ensures a == b
  {
    assert |b - a| == |b| - |a|;
  }

  lemma {:induction false} SelectionsAgreeUpTo(a: seq<Job>, b: seq<Job>, table: Table, from: set<JobId>, n: nat, k: nat)
    requires from <= table.Keys && IsSelection(a, table, from, n) && IsSelection(b, table, from, n) && k <= |a|
    ensures a[..k] == b[..k]
  {
    hide ClaimedBefore, IdsOf;
    if k > 0 {
      SelectionsAgreeUpTo(a, b, table, from, n, k - 1);
      NextNotLater(a, b, table, from, n, k - 1);
      NextNotLater(b, a, table, from, n, k - 1);
      if a[k - 1] != b[k - 1] {
        ClaimOrderIsTransitive(a[k - 1], b[k - 1], a[k - 1]);
        ClaimOrderIsTotal(a[k - 1], a[k - 1]);
      }
    }
  }

  lemma NextNotLater(a: seq<Job>, b: seq<Job>, table: Table, from: set<JobId>, n: nat, k: nat)
    requires from <= table.Keys && IsSelection(a, table, from, n) && IsSelection(b, table, from, n)
    requires k < |a| && a[..k] == b[..k]
    ensures a[k] == b[k] || ClaimedBefore(b[k], a[k])
  {
    hide ClaimedBefore;
    if a[k].id in IdsOf(b) {
      var job :| job in b && job.id == a[k].id;
      var j :| 0 <= j < |b| && b[j] == job;
      if j < k {
        assert a[..k][j] == b[..k][j];
        ClaimOrderIsTotal(a[k], a[k]);
      }
    }
  }

  /** Which jobs a claim takes, and in which order, is determined by the table alone. */
  lemma SelectionIsUnique(a: seq<Job>, b: seq<Job>, table: Table, from: set<JobId>, n: nat)
    requires from <= table.Keys && IsSelection(a, table, from, n) && IsSelection(b, table, from, n)
    ensures a == b
  {
    SelectionsAgreeUpTo(a, b, table, from, n, |a|);
  }

  /** With valid creation times the claimed jobs are the ones that run first, in the documented order. */
  lemma ClaimsFollowRunsBefore(jobs: seq<Job>, table: Table, from: set<JobId>, n: nat)
    requires Filed(table) && from <= table.Keys && IsSelection(jobs, table, from, n)
    requires forall id | id in from :: table[id].createdAt.Some?
    ensures forall i, j | 0 <= i < j < |jobs| :: RunsBefore(jobs[i], jobs[j])
    ensures forall i, id | 0 <= i < |jobs| && id in from && id !in IdsOf(jobs) :: RunsBefore(jobs[i], table[id])
  {
    forall i, j | 0 <= i < j < |jobs| ensures RunsBefore(jobs[i], jobs[j]) {
      ClaimOrderIsTotal(jobs[i], jobs[j]);
      assert jobs[i].id in from && jobs[j].id in from;
    }
    forall i, id | 0 <= i < |jobs| && id in from && id !in IdsOf(jobs) ensures RunsBefore(jobs[i], table[id]) {
      assert jobs[i].id in IdsOf(jobs);
      assert ClaimedBefore(jobs[i], table[id]);
    }
  }

  /** A job without a creation time is claimed first, although it should never overtake dated work. */
  lemma TimelessJobOvertakes(timeless: Job, dated: Job)
    requires timeless.priority == dated.priority && timeless.createdAt.None? && dated.createdAt.Some?
    ensures ClaimedBefore(timeless, dated) && RunsBefore(dated, timeless)
  {
  }

  // ----- life cycle -----

  function AfterSuccess(job: Job): Job {
    job.(state := Succeeded, attempts := job.attempts + 1)
  }

  /** A retryable failure returns the job to the queue while attempts remain. */
  function AfterFailure(job: Job, retryable: bool): Job {
    if retryable && job.attempts + 1 < job.maxAttempts
    then job.(state := Pending, attempts := job.attempts + 1, notBefore := None)
    else job.(state := Failed, attempts := job.attempts + 1)
  }

  function Recovered(table: Table): Table {
    map id | id in table :: if table[id].state == Running then table[id].(state := Pending) else table[id]
  }

  function Started(table: Table, ids: set<JobId>): Table {
    map id | id in table :: if id in ids && table[id].state == Pending then table[id].(state := Running) else table[id]
  }

  /** No job is lost, none changes what it is, and a finished one never changes at all. */
  ghost predicate Evolves(was: Table, now: Table) {
    forall id | id in was ::
      && id in now
      && (IsTerminal(was[id].state) ==> now[id] == was[id])
      && was[id].attempts <= now[id].attempts
      && now[id] == was[id].(state := now[id].state, attempts := now[id].attempts, notBefore := now[id].notBefore)
  }

  lemma StartedEvolves(table: Table, ids: set<JobId>)
    ensures Evolves(table, Started(table, ids)) && Started(table, {}) == table
    ensures Filed(table) ==> Filed(Started(table, ids))
  {
  }

  lemma EvolvesFurther(a: Table, b: Table, c: Table)
    requires Evolves(a, b) && Evolves(b, c)
    ensures Evolves(a, c)
  {
    forall id | id in a
      ensures id in c && (IsTerminal(a[id].state) ==> c[id] == a[id]) && a[id].attempts <= c[id].attempts
      ensures c[id] == a[id].(state := c[id].state, attempts := c[id].attempts, notBefore := c[id].notBefore)
    {
      assert id in b;
    }
  }

  // ----- coalescing -----

  function PendingFor(table: Table, key: string): set<JobId> {
    set id | id in table && table[id].state == Pending && table[id].coalescingKey == key
  }

  lemma StartedIsNotPending(table: Table, ids: set<JobId>, key: string)
    ensures PendingFor(Started(table, ids), key) == PendingFor(table, key) - ids
    ensures Started(table, ids).Keys == table.Keys
  {
  }

  ghost predicate AtMostOnePending(table: Table, key: string) {
    forall a, b | a in PendingFor(table, key) && b in PendingFor(table, key) :: a == b
  }

  /** A failed job that is retried meets the follow-up queued while it was running: then two jobs with one key are pending. */
  lemma RetryKeepsKeysApartExactlyWhen(table: Table, id: JobId, retryable: bool)
    requires Filed(table) && id in table && table[id].state == Running
    requires AtMostOnePending(table, table[id].coalescingKey)
    ensures var key := table[id].coalescingKey;
      var after := table[id := AfterFailure(table[id], retryable)];
      AtMostOnePending(after, key) <==>
        (PendingFor(table, key) == {} || !(retryable && table[id].attempts + 1 < table[id].maxAttempts))
  {
    var key := table[id].coalescingKey;
    var after := table[id := AfterFailure(table[id], retryable)];
    if retryable && table[id].attempts + 1 < table[id].maxAttempts {
      assert id in PendingFor(after, key);
      if PendingFor(table, key) != {} {
        var other :| other in PendingFor(table, key);
        assert other in PendingFor(after, key) && other != id;
      } else {
        assert forall x | x in PendingFor(after, key) :: x == id || x in PendingFor(table, key);
      }
    } else {
      assert PendingFor(after, key) == PendingFor(table, key);
    }
  }

  // ----- the work a table stands for -----

  /** How often the job can still be started, and at least once. */
  function Weight(job: Job): (times: nat)
    ensures 1 <= times && job.maxAttempts <= job.attempts + times
    ensures times == 1 || job.maxAttempts == job.attempts + times
  {
    if job.maxAttempts - job.attempts < 1 then 1 else job.maxAttempts - job.attempts
  }

  ghost function Total(table: Table, ids: set<JobId>): (times: nat)
    requires ids <= table.Keys
    ensures ids == {} ==> times == 0
  {
    if ids == {} then 0
    else
      var id :| id in ids;
      Weight(table[id]) + Total(table, ids - {id})
  }

  lemma {:induction false} TotalWithout(table: Table, ids: set<JobId>, x: JobId)
    requires ids <= table.Keys && x in ids
    ensures Total(table, ids) == Weight(table[x]) + Total(table, ids - {x})
  {
    var id :| id in ids && Total(table, ids) == Weight(table[id]) + Total(table, ids - {id});
    if id != x {
      TotalWithout(table, ids - {id}, x);
      TotalWithout(table, ids - {x}, id);
      assert ids - {id} - {x} == ids - {x} - {id};
    }
  }

  lemma {:induction false} TotalsAgree(a: Table, b: Table, ids: set<JobId>)
    requires ids <= a.Keys && ids <= b.Keys && forall id | id in ids :: Weight(a[id]) == Weight(b[id])
    ensures Total(a, ids) == Total(b, ids)
  {
    if ids != {} {
      var x :| x in ids;
      TotalWithout(a, ids, x);
      TotalWithout(b, ids, x);
      TotalsAgree(a, b, ids - {x});
    }
  }

  /** Jobs that wait, or that a worker has in hand. */
  function OpenIds(table: Table, inHand: set<JobId>): set<JobId> {
    set id | id in table && (table[id].state == Pending || id in inHand)
  }

  ghost function Load(table: Table, inHand: set<JobId>): nat {
    Total(table, OpenIds(table, inHand))
  }

  /** Every completion takes at least one from the load, whatever became of the job. */
  lemma CompletionLowersLoad(table: Table, inHand: set<JobId>, id: JobId, job: Job)
    requires id in table && id in inHand && table[id].state == Running
    requires job.state == Pending ==> Weight(job) < Weight(table[id])
    ensures Load(table[id := job], inHand - {id}) < Load(table, inHand)
  {
    var next := table[id := job];
    var open, rest := OpenIds(table, inHand), OpenIds(table, inHand) - {id};
    TotalWithout(table, open, id);
    TotalsAgree(table, next, rest);
    if job.state == Pending {
      assert OpenIds(next, inHand - {id}) - {id} == rest;
      TotalWithout(next, OpenIds(next, inHand - {id}), id);
    } else {
      assert OpenIds(next, inHand - {id}) == rest;
    }
  }

  lemma RetryIsLighter(job: Job, retryable: bool)
    ensures AfterFailure(job, retryable).state == Pending ==> Weight(AfterFailure(job, retryable)) == Weight(job) - 1
  {
  }

  /** Handing pending jobs to workers leaves the load as it is. */
  lemma StartingKeepsLoad(table: Table, inHand: set<JobId>, ids: set<JobId>)
    requires forall id | id in ids :: id in table && table[id].state == Pending
    ensures Load(Started(table, ids), inHand + ids) == Load(table, inHand)
  {
    var next := Started(table, ids);
    assert OpenIds(next, inHand + ids) == OpenIds(table, inHand);
    TotalsAgree(table, next, OpenIds(table, inHand));
  }

  /** Jobs that were marked as running but reached no worker stop counting. */
  lemma StrandingLowersLoad(table: Table, inHand: set<JobId>, ids: set<JobId>)
    requires forall id | id in ids :: id in table && table[id].state == Pending && id !in inHand
    ensures Load(Started(table, ids), inHand) <= Load(table, inHand)
  {
    StartingKeepsLoad(table, inHand, ids);
    var next := Started(table, ids);
    TotalOfFewer(next, OpenIds(next, inHand + ids), OpenIds(next, inHand));
  }

  lemma {:induction false} TotalOfFewer(table: Table, ids: set<JobId>, fewer: set<JobId>)
    requires fewer <= ids <= table.Keys
    ensures Total(table, fewer) <= Total(table, ids)
  {
    if ids - fewer == {} {
      forall x | x in ids ensures x in fewer {
        assert x in ids - fewer || x in fewer;
      }
      assert ids == fewer;
    } else {
      var x :| x in ids - fewer;
      TotalWithout(table, ids, x);
      TotalOfFewer(table, ids - {x}, fewer);
    }
  }
}
