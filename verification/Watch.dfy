/**
 * From file events to background work: events are coalesced, a due batch becomes a job, and the
 * job is claimed. No event may fall between two of these stages.
 */
module Watch {
  import opened Media
  import opened Jobs
  import opened JobQueue
  import opened JobDispatcher

  datatype Kind = Created | Modified | Removed | RenamedFrom | RenamedTo | Overflow

  datatype Event = Event(kind: Kind, renameCookie: nat)

  /** Half of a rename, waiting for the other half. */
  datatype Half = Half(event: Event, receivedAt: int)

  predicate IsRenameHalf(event: Event) {
    (event.kind == RenamedFrom || event.kind == RenamedTo) && event.renameCookie != 0
  }

  function HalvesAfter(halves: map<nat, Half>, event: Event, now: int): map<nat, Half> {
    if event.kind == Overflow then map[]
    else if !IsRenameHalf(event) then halves
    else if event.renameCookie in halves then halves - {event.renameCookie}
    else halves[event.renameCookie := Half(event, now)]
  }

  /** Collects events until none of the batch is younger than the debounce time. */
  class EventCoalescer {
    const debounceMs: int
    const renamePairingTimeoutMs: int
    var pending: bool
    var pendingSince: int
    var pendingEventCount: nat
    var overflowPending: bool
    var lastReconcileEventCount: nat
    var lastReconcileWasOverflow: bool
    var pairedRenameCount: nat
    var renameHalves: map<nat, Half>

    constructor (debounceMs: int, renamePairingTimeoutMs: int)
      ensures Valid() && !pending && renameHalves == map[] && pairedRenameCount == 0
      ensures this.debounceMs == debounceMs && this.renamePairingTimeoutMs == renamePairingTimeoutMs
    {
      this.debounceMs, this.renamePairingTimeoutMs := debounceMs, renamePairingTimeoutMs;
      pending, pendingSince, pendingEventCount, overflowPending := false, 0, 0, false;
      lastReconcileEventCount, lastReconcileWasOverflow, pairedRenameCount, renameHalves := 0, false, 0, map[];
    }

    /** A batch is pending exactly while it holds events. */
    predicate Valid()
      reads this
    {
      (pending <==> pendingEventCount > 0) && (overflowPending ==> pending)
    }

    method MarkPending(now: int)
      modifies `pending, `pendingSince, `pendingEventCount
      ensures pending && pendingEventCount == old(pendingEventCount) + 1
      ensures pendingSince == if old(pending) then old(pendingSince) else now
    {
      if !pending {
        pending, pendingSince := true, now;
      }
      pendingEventCount := pendingEventCount + 1;
    }

    /** Every event, paired or not, counts for the batch; the first one starts its clock. */
    method Ingest(event: Event, now: int)
      requires Valid()
      modifies this
      ensures Valid() && pending && pendingEventCount == old(pendingEventCount) + 1
      ensures pendingSince == if old(pending) then old(pendingSince) else now
      ensures overflowPending <==> old(overflowPending) || event.kind == Overflow
      ensures renameHalves == HalvesAfter(old(renameHalves), event, now)
      ensures pairedRenameCount == old(pairedRenameCount) + if IsRenameHalf(event) && event.renameCookie in old(renameHalves) then 1 else 0
      // Two halves with one cookie are a pair, whichever comes first; an overflow forgets every lone half.
      ensures var half := event.renameCookie != 0 && (event.kind == RenamedFrom || event.kind == RenamedTo);
        forall c :: c in renameHalves <==>
          event.kind != Overflow && (if half && c == event.renameCookie then c !in old(renameHalves) else c in old(renameHalves))
      ensures forall c | c in renameHalves ::
        renameHalves[c] == if c in old(renameHalves) then old(renameHalves)[c] else Half(event, now)
      ensures pairedRenameCount > old(pairedRenameCount) <==>
        event.renameCookie != 0 && (event.kind == RenamedFrom || event.kind == RenamedTo) && event.renameCookie in old(renameHalves)
      ensures lastReconcileEventCount == old(lastReconcileEventCount) && lastReconcileWasOverflow == old(lastReconcileWasOverflow)
    {
      if event.kind == Overflow {
        overflowPending := true;
        renameHalves := map[];
        MarkPending(now);
        return;
      }
      if IsRenameHalf(event) {
        if event.renameCookie in renameHalves {
          renameHalves := renameHalves - {event.renameCookie};
          pairedRenameCount := pairedRenameCount + 1;
        } else {
          renameHalves := renameHalves[event.renameCookie := Half(event, now)];
        }
      }
      MarkPending(now);
    }

    /** Hands the whole batch over once it is old enough; expired rename halves are forgotten either way. */
    method TakeDueReconcile(now: int) returns (due: bool)
      requires Valid()
      modifies this
      ensures Valid() && (due <==> old(pending) && now - old(pendingSince) >= debounceMs)
      ensures due ==> !pending && lastReconcileEventCount == old(pendingEventCount) && lastReconcileWasOverflow == old(overflowPending)
      ensures !due ==> pending == old(pending) && pendingSince == old(pendingSince) && pendingEventCount == old(pendingEventCount) && overflowPending == old(overflowPending)
      ensures renameHalves == map c | c in old(renameHalves) && now - old(renameHalves)[c].receivedAt < renamePairingTimeoutMs :: old(renameHalves)[c]
    {
      renameHalves := map c | c in renameHalves && now - renameHalves[c].receivedAt < renamePairingTimeoutMs :: renameHalves[c];
      if !pending || now - pendingSince < debounceMs {
        return false;
      }
      lastReconcileEventCount, lastReconcileWasOverflow := pendingEventCount, overflowPending;
      pending, pendingEventCount, overflowPending := false, 0, false;
      due := true;
    }
  }

  predicate IsPeriodicFallbackDue(lastReconcileAt: Option<int>, now: int, intervalMs: int) {
    lastReconcileAt.None? || now - lastReconcileAt.value >= intervalMs
  }

  const SCAN_ROOT: nat := 1
  const RECONCILE_ROOT: nat := 2
  const BACKGROUND := 2

  function RootJob(kind: nat, id: JobId, key: string, now: int): Job {
    Job(id, kind, BACKGROUND, Pending, key, 0, 3, Some(now), None)
  }

  // ----- coverage -----

  datatype Step =
    | Happens(event: Event, at: int)
    | Ticks(at: int, id: JobId)
    | Dispatches(at: int)
    | Ends(id: JobId, cancelled: bool, outcome: Outcome, at: int)
    | Cancels(id: JobId)
    | Restarts(debounceMs: int)
    | StartsUp(at: int, id: JobId)
    | Queues(record: Job)
  {
    /** The ids this step may add to the table. */
    function NewIds(): set<JobId> {
      match this
      case Ticks(_, id) => {id}
      case StartsUp(_, id) => {id}
      case Queues(record) => {record.id}
      case _ => {}
    }
  }

  function NewIds(steps: seq<Step>): set<JobId> {
    if steps == [] then {} else NewIds(steps[..|steps| - 1]) + steps[|steps| - 1].NewIds()
  }

  /** What the library knows between two steps: its jobs, which of them are in hand, and what became of the events. */
  datatype Moment = Moment(table: Table, flags: map<JobId, bool>, active: bool, ingested: nat, handed: nat, seen: nat)

  /** Some pending jobs that were due now run, in hand or stranded; a job with this key in hand has seen every event. */
  ghost predicate Advanced(a: Moment, b: Moment, key: string, now: int) {
    && b == Moment(b.table, b.flags, a.active, a.ingested, a.handed, b.seen)
    && b.table.Keys == a.table.Keys && a.flags.Keys <= b.flags.Keys
    && (forall id | id in a.table && id in b.table :: b.table[id] == a.table[id]
          || (a.table[id].state == Pending && (a.table[id].notBefore.None? || a.table[id].notBefore.value <= now)
              && b.table[id] == a.table[id].(state := Running)))
    && (forall id | id in b.flags :: b.flags[id] == (id in a.flags && a.flags[id]))
    && (forall id | id in b.flags && id !in a.flags ::
          id in a.table && id in b.table && a.table[id].state == Pending && b.table[id].state == Running)
    && b.seen == (if exists id | id in b.flags && id !in a.flags :: id in b.table && b.table[id].coalescingKey == key
                  then a.ingested else a.seen)
  }

  /** A job left the hand, and was booked unless that failed. */
  ghost predicate Ended(a: Moment, b: Moment, id: JobId, cancelled: bool, outcome: Outcome) {
    && b == a.(table := b.table, flags := a.flags - {id}) && id in a.table
    && (b.table == a.table
        || (id in b.table && b.table == a.table[id := b.table[id]] && exists known :: IsBooked(a.table[id], known, cancelled, outcome, b.table[id])))
  }

  ghost predicate Queued(a: Moment, b: Moment, record: Job) {
    b == a.(table := b.table) && (b.table == a.table || (record.id !in a.table && b.table == a.table[record.id := record]))
  }

  /** What a step changes, and that it changes nothing else. */
  ghost predicate Moved(step: Step, key: string, a: Moment, b: Moment) {
    match step
    case Happens(_, _) =>
      b == a.(ingested := a.ingested + if a.active then 1 else 0)
    case Ticks(at, id) =>
      && (b.handed == a.handed || (a.active && b.handed == a.ingested))
      && Queued(a, b.(handed := a.handed), Job(id, RECONCILE_ROOT, 2, Pending, key, 0, 3, Some(at), None))
      && (!a.active ==> b == a)
    case Dispatches(at) =>
      Advanced(a, b, key, at)
    case Ends(id, cancelled, outcome, at) =>
      if id in a.flags && (cancelled ==> a.flags[id]) then
        exists mid :: Ended(a, mid, id, cancelled, outcome) && Advanced(mid, b, key, at)
      else b == a
    case Cancels(id) =>
      b == a.(flags := if id in a.flags then a.flags[id := true] else a.flags)
    case Restarts(_) =>
      && b == Moment(b.table, map[], false, a.ingested, a.ingested, a.seen)
      && (b.table == a.table
          || (b.table.Keys == a.table.Keys && forall id | id in a.table && id in b.table ::
                b.table[id] == if a.table[id].state == Running then a.table[id].(state := Pending) else a.table[id]))
    case StartsUp(at, id) =>
      exists mid :: Advanced(a, mid, key, at) && Queued(mid.(active := true), b, Job(id, SCAN_ROOT, 2, Pending, key, 0, 3, Some(at), None))
    case Queues(record) =>
      Queued(a, b, record)
  }

  /** No id is used twice. */
  ghost predicate FreshIds(steps: seq<Step>, keys: set<JobId>) {
    forall i | 0 <= i < |steps| :: steps[i].NewIds() !! keys + NewIds(steps[..i])
  }

  /** After each end of the process the library was opened again. */
  predicate StartedUp(steps: seq<Step>) {
    steps == [] || steps[|steps| - 1].StartsUp? || (!steps[|steps| - 1].Restarts? && StartedUp(steps[..|steps| - 1]))
  }

  lemma StartedUpAtFirst(steps: seq<Step>)
    ensures StartedUp(steps[..0]) && NewIds(steps[..0]) == {}
  {
  }

  lemma OneMoreStep(steps: seq<Step>, i: nat, keys: set<JobId>, now: set<JobId>)
    requires i < |steps| && now <= keys + NewIds(steps[..i])
    ensures NewIds(steps[..i + 1]) == NewIds(steps[..i]) + steps[i].NewIds()
    ensures now + steps[i].NewIds() <= keys + NewIds(steps[..i + 1])
    ensures FreshIds(steps, keys) ==> steps[i].NewIds() !! now
    ensures StartedUp(steps[..i + 1]) <==> steps[i].StartsUp? || (!steps[i].Restarts? && StartedUp(steps[..i]))
  {
    assert steps[..i + 1][..i] == steps[..i];
  }

  /** Watches one root and turns its events into reconcile jobs. */
  class WatchService {
    const queue: JobQueue
    const dispatcher: JobDispatcher
    const key: string
    var coalescer: EventCoalescer
    var active: bool
    var lastReconcileAt: Option<int>
    var intervalMs: int

    ghost var ingested: nat    // events received since the watch started
    ghost var handed: nat      // of these, events whose batch was handed to the queue
    ghost var seen: nat        // events received before a job with this root's key was last claimed

    constructor (dispatcher: JobDispatcher, path: string, debounceMs: int, now: int)
      requires dispatcher.Valid()
      ensures Valid() && active && fresh(coalescer) && this.dispatcher == dispatcher && queue == dispatcher.queue
      ensures ingested == handed == seen == 0 && NoLostChange() && coalescer.debounceMs == debounceMs && !coalescer.pending
      ensures key == "watch-reconcile:" + path && lastReconcileAt == Some(now) && intervalMs == 900000
    {
      this.dispatcher, queue, key := dispatcher, dispatcher.queue, "watch-reconcile:" + path;
      coalescer := new EventCoalescer(debounceMs, 2000);
      active, lastReconcileAt, intervalMs := true, Some(now), 900000;
      ingested, handed, seen := 0, 0, 0;
    }

    ghost predicate Valid()
      reads this, coalescer, dispatcher, queue
    {
      && queue == dispatcher.queue && dispatcher.Valid() && coalescer.Valid()
      && key != "" && ingested == handed + coalescer.pendingEventCount && seen <= ingested
    }

    ghost function Shown(): Moment
      reads this, dispatcher, queue`table
    {
      Moment(queue.table, dispatcher.cancellations, active, ingested, handed, seen)
    }

    lemma ShownIs()
      ensures Shown() == Moment(queue.table, dispatcher.cancellations, active, ingested, handed, seen)
    {
    }

    /** A job with this root's key is pending, so that it will be claimed. */
    predicate Waits()
      reads queue`table
    {
      PendingFor(queue.table, key) != {}
    }

    /**
     * Where an event of this watch still has its effect to come, or had it: it happened before a
     * job with this root's key came into hand, or such a job is pending, or its batch is.
     */
    ghost predicate Covered(event: nat)
      reads this, coalescer, dispatcher, queue
    {
      || event < seen
      || (event < handed && Waits())
      || (handed <= event && coalescer.pending)
    }

    ghost predicate NoLostChange()
      reads this, coalescer, dispatcher, queue
    {
      forall event: nat | event < ingested :: Covered(event)
    }

    lemma CoverageIs()
      requires Valid()
      ensures NoLostChange() <==> (seen < handed ==> Waits())
      ensures Waits() <==> PendingFor(queue.table, key) != {}
    {
      if NoLostChange() && seen < handed {
        assert Covered(seen);
      }
    }

    method OnAdapterEvent(event: Event, now: int)
      requires Valid()
      modifies coalescer, `ingested
      ensures Valid() && (old(NoLostChange()) ==> NoLostChange())
      ensures ingested == old(ingested) + if active then 1 else 0
      ensures Moved(Happens(event, now), key, old(Shown()), Shown())
      ensures active ==> coalescer.pending && coalescer.pendingSince == if old(coalescer.pending) then old(coalescer.pendingSince) else now
    {
      CoverageIs();
      if active {
        coalescer.Ingest(event, now);
        ingested := ingested + 1;
      }
      CoverageIs();
    }

    /**
     * A due batch, or else the periodic fallback, becomes a job; `queued` says that one is pending now.
     * With neither due nothing happens.
     */
    method OnTimerTick(now: int, id: JobId) returns (queued: bool)
      requires Valid()
      modifies coalescer, `lastReconcileAt, `handed, queue`table, queue`statements
      ensures Valid() && Evolves(old(queue.table), queue.table) && coalescer == old(coalescer)
      ensures queued ==> NoLostChange()
      ensures var due := active && old(coalescer.pending) && now - old(coalescer.pendingSince) >= coalescer.debounceMs;
        var late := active && (old(lastReconcileAt).None? || now - old(lastReconcileAt).value >= intervalMs);
        if due || late then
          && IsQueued(old(queue.table), old(queue.statements), RECONCILE_ROOT, id, now, queued)
          && lastReconcileAt == Some(now) && (coalescer.pending <==> !due && old(coalescer.pending))
        else
          && !queued && queue.table == old(queue.table) && queue.statements == old(queue.statements)
          && lastReconcileAt == old(lastReconcileAt) && coalescer.pending == old(coalescer.pending)
      ensures var due := active && old(coalescer.pending) && now - old(coalescer.pendingSince) >= coalescer.debounceMs;
        && (due ==> handed == ingested) && (!due ==> handed == old(handed))
        && (due && old(queue.Healthy()) && id !in old(queue.table) ==> queued)
        // A due batch is lost exactly when no job is pending, none came into hand since, and a statement
        // that would queue one fails.
        && (old(NoLostChange()) ==> (NoLostChange() <==> !(due && seen < ingested && !old(Waits()) && !old(CanQueue(id)))))
      ensures old(queue.Healthy()) ==> queue.Healthy()
      ensures queue.table == old(queue.table) || queue.table == old(queue.table)[id := RootJob(RECONCILE_ROOT, id, key, now)]
      ensures active && old(coalescer.pending) && now - old(coalescer.pendingSince) >= coalescer.debounceMs ==>
        (old(CanQueue(id)) && !old(Waits()) ==>
           queue.statements == old(queue.statements) + 2 && queue.table == old(queue.table)[id := RootJob(RECONCILE_ROOT, id, key, now)])
      ensures dispatcher.Stranded() == old(dispatcher.Stranded())
      ensures Moved(Ticks(now, id), key, old(Shown()), Shown())
    {
      hide *;
      ShownIs();
      ghost var before := Shown();
      TickMoves(before, now, id);
      ValidMeans();
      StartedEvolves(queue.table, {});
      CoverageIs();
      FallbackMeans(lastReconcileAt, now, intervalMs);
      queued := false;
      if !active {
        return;
      }
      var due := coalescer.TakeDueReconcile(now);
      if due {
        handed := ingested;
        var enqueued := EnqueueRoot(RECONCILE_ROOT, id, now);
        queued := enqueued.Some?;
      } else if IsPeriodicFallbackDue(lastReconcileAt, now, intervalMs) {
        var enqueued := EnqueueRoot(RECONCILE_ROOT, id, now);
        queued := enqueued.Some?;
      }
      ValidWhen();
      CoverageIs();
      TickMoves(before, now, id);
    }

    /** What a tick may leave, as a step of a run. */
    lemma TickMoves(before: Moment, now: int, id: JobId)
      requires before.active == active && before.flags == dispatcher.cancellations && before.ingested == ingested && before.seen == seen
      requires handed == before.handed || (active && handed == ingested)
      requires queue.table == before.table || (active && id !in before.table && queue.table == before.table[id := RootJob(RECONCILE_ROOT, id, key, now)])
      ensures Moved(Ticks(now, id), key, before, Shown())
    {
    }

    lemma FallbackMeans(last: Option<int>, now: int, intervalMs: int)
      ensures IsPeriodicFallbackDue(last, now, intervalMs) <==> last.None? || now - last.value >= intervalMs
    {
    }

    /** A new job can be queued for this root: neither the look-up nor the insertion fails, and the id is free. */
    predicate CanQueue(id: JobId)
      reads queue
    {
      queue.open && !queue.fails(queue.statements) && !queue.fails(queue.statements + 1) && id !in queue.table
    }

    lemma CanQueueWhen(id: JobId)
      ensures CanQueue(id) <==> queue.open && !queue.fails(queue.statements) && !queue.fails(queue.statements + 1) && id !in queue.table
    {
    }

    /**
     * A job of this root is queued: it joins a pending one, or is a new pending background job; and
     * it is not exactly when the queue is closed, a statement fails or a new job would need a used id.
     */
    ghost predicate IsQueued(was: Table, t: nat, kind: nat, id: JobId, now: int, queued: bool)
      reads queue
    {
      var waits := exists other | other in was :: was[other].state == Pending && was[other].coalescingKey == key;
      && (queued <==> queue.open && !queue.fails(t) && (waits || (id !in was && !queue.fails(t + 1))))
      && queue.table == if queued && !waits then was[id := Job(id, kind, 2, Pending, key, 0, 3, Some(now), None)] else was
    }

    lemma QueuedWhen(was: Table, t: nat, kind: nat, id: JobId, now: int, queued: bool)
      requires queued <==> queue.open && !queue.fails(t) && (HasPending(was, key) || (id !in was && !queue.fails(t + 1)))
      requires !queued ==> queue.table == was
      requires queued ==> if HasPending(was, key) then queue.table == was else queue.table == was[id := RootJob(kind, id, key, now)]
      ensures IsQueued(was, t, kind, id, now, queued)
    {
    }

    method EnqueueRoot(kind: nat, id: JobId, now: int) returns (enqueued: Option<JobId>)
      requires queue == dispatcher.queue && dispatcher.Valid() && key != ""
      modifies `lastReconcileAt, queue`table, queue`statements
      ensures dispatcher.Valid() && Evolves(old(queue.table), queue.table) && lastReconcileAt == Some(now)
      ensures enqueued.Some? ==> Waits()
      ensures Waits() <==> old(Waits()) || old(CanQueue(id))
      ensures old(queue.Healthy()) ==> queue.Healthy() && (enqueued.None? ==> id in queue.table)
      ensures enqueued.None? ==> queue.table == old(queue.table)
      ensures queue.table == old(queue.table) || (id !in old(queue.table) && queue.table == old(queue.table)[id := RootJob(kind, id, key, now)])
      ensures old(CanQueue(id)) && !old(Waits()) ==>
        queue.statements == old(queue.statements) + 2 && queue.table == old(queue.table)[id := RootJob(kind, id, key, now)]
      ensures IsQueued(old(queue.table), old(queue.statements), kind, id, now, enqueued.Some?)
      ensures dispatcher.Stranded() == old(dispatcher.Stranded())
    {
      hide Evolves, IsQueued;
      ghost var was, t := queue.table, queue.statements;
      enqueued := queue.Enqueue(RootJob(kind, id, key, now));
      lastReconcileAt := Some(now);
      PendingStays(was, queue.table);
      QueuedWhen(was, t, kind, id, now, enqueued.Some?);
    }

    lemma PendingStays(was: Table, now: Table)
      requires forall id | id in was :: id in now && now[id] == was[id]
      ensures PendingFor(was, key) <= PendingFor(now, key)
    {
    }

    // ----- the stages behind the queue -----

    /** Jobs were claimed: one with this root's key sees everything that happened before. */
    ghost method NoteClaims(was: set<JobId>)
      requires Valid()
      modifies `seen
      ensures Valid() && seen == if Claimed(was) then ingested else old(seen)
    {
      if Claimed(was) {
        seen := ingested;
      }
    }

    /** A job with this root's key came into hand. */
    ghost predicate Claimed(was: set<JobId>)
      reads dispatcher`pool
    {
      exists id :: id in dispatcher.pool && id !in was && dispatcher.pool[id].job.coalescingKey == key
    }

    /**
     * Free slots are filled with `rows`. Coverage is lost exactly when marking one of them fails
     * after every pending job of this root was marked: those rows run for nobody then.
     */
    method Dispatch(now: int) returns (ghost rows: seq<Job>)
      requires Valid()
      modifies `seen, dispatcher`cancellations, dispatcher`inflight, dispatcher`pool, queue`table, queue`statements
      ensures Valid()
      ensures if dispatcher.running && queue.open && old(dispatcher.inflight) < dispatcher.maxConcurrency
        then IsSelection(rows, old(queue.table), EligibleIds(old(queue.table), now), dispatcher.maxConcurrency - old(dispatcher.inflight))
        else rows == []
      ensures var k := Marked(queue.fails, old(queue.statements), |rows|);
        old(NoLostChange()) ==>
          (NoLostChange() <==> !(0 < k < |rows| && old(seen) < handed && PendingFor(old(queue.table), key) <= IdsOf(rows[..k])))
      ensures Evolves(old(queue.table), queue.table) && Bounded(old(dispatcher.inflight))
      ensures old(queue.Healthy()) ==> queue.Healthy() && dispatcher.Stranded() == old(dispatcher.Stranded())
      ensures old(queue.Healthy()) && old(NoLostChange()) ==> NoLostChange()
      ensures queue.table.Keys == old(queue.table.Keys)
      ensures Advanced(old(Shown()), Shown(), key, now)
    {
      hide *;
      ShownIs();
      ghost var before := Shown();
      ValidMeans();
      CoverageIs();
      dispatcher.ValidMeans();
      ghost var was, hand, t, inflight := queue.table, dispatcher.pool.Keys, queue.statements, dispatcher.inflight;
      HandIsNotEligible(was, now);
      ghost var healthy := queue.Healthy();
      rows := dispatcher.TryDispatch(now);
      BoundedWhen(inflight);
      ValidWhen();
      if healthy { HealthyDispatch(was, hand, t, now, rows); }
      ClaimedOrPending(was, hand, t, now, rows);
      Between(PendingFor(was, key), IdsOf(rows[..Marked(queue.fails, t, |rows|)]));
      NoteClaims(hand);
      CoverageIs();
      DispatchAdvances(before, hand, t, now, rows);
    }

    /** What a dispatch and the note on it leave, as a step of a run. */
    lemma DispatchAdvances(before: Moment, hand: set<JobId>, t: nat, now: int, rows: seq<Job>)
      requires Valid() && Filed(before.table) && before.flags.Keys == hand && hand !! EligibleIds(before.table, now)
      requires Dispatched(queue.fails, t, before.table, hand, now, rows, queue.table, dispatcher.pool.Keys)
      requires forall id | id in before.flags :: id in dispatcher.cancellations && dispatcher.cancellations[id] == before.flags[id]
      requires forall id | id in dispatcher.pool && id !in before.flags :: id in dispatcher.cancellations && !dispatcher.cancellations[id]
      requires (before.active, before.ingested, before.handed) == (active, ingested, handed)
      requires seen == if Claimed(hand) then ingested else before.seen
      ensures Advanced(before, Shown(), key, now)
    {
      hide Marked, IdsOf, RunningIds;
    }

    lemma HandIsNotEligible(table: Table, now: int)
      requires dispatcher.Valid() && table == dispatcher.queue.table
      ensures dispatcher.pool.Keys !! EligibleIds(table, now)
      ensures Filed(table) && dispatcher.cancellations.Keys == dispatcher.pool.Keys
    {
    }

    /** A dispatch that stranded nothing marked all of its rows, or none. */
    lemma HealthyDispatch(was: Table, hand: set<JobId>, t: nat, now: int, rows: seq<Job>)
      requires Dispatched(queue.fails, t, was, hand, now, rows, queue.table, dispatcher.pool.Keys)
      requires dispatcher.queue == queue && dispatcher.Stranded() == RunningIds(was) - hand
      ensures !(0 < Marked(queue.fails, t, |rows|) < |rows|)
    {
    }

    lemma ValidMeans()
      requires Valid()
      ensures queue == dispatcher.queue && dispatcher.Valid() && key != ""
      ensures coalescer.Valid() && (coalescer.pending <==> coalescer.pendingEventCount > 0) && ingested == handed + coalescer.pendingEventCount && seen <= ingested
    {
    }

    lemma ValidWhen()
      requires queue == dispatcher.queue && dispatcher.Valid() && key != ""
      requires coalescer.Valid() && ingested == handed + coalescer.pendingEventCount && seen <= ingested
      ensures Valid()
    {
    }

    lemma Between(a: set<JobId>, b: set<JobId>)
      ensures a <= b && a != {} ==> !(a !! b) && b != {}
    {
    }

    /**
     * After a dispatch a job of this root came into hand exactly if all rows were marked, one of
     * them of this root; and one is pending exactly if not all of them were marked.
     */
    lemma ClaimedOrPending(was: Table, hand: set<JobId>, t: nat, now: int, rows: seq<Job>)
      requires Valid() && hand !! EligibleIds(was, now)
      requires Dispatched(queue.fails, t, was, hand, now, rows, queue.table, dispatcher.pool.Keys)
      ensures var k := Marked(queue.fails, t, |rows|); var marked := IdsOf(rows[..k]);
        && (Waits() <==> !(PendingFor(was, key) <= marked))
        && (Claimed(hand) <==> k == |rows| && !(PendingFor(was, key) !! marked))
        && (k == 0 ==> marked == {}) && queue.table.Keys == was.Keys
    {
      hide IdsOf, Marked, Filed, Started, PendingFor, InHand, RunningIds, EligibleIds, JobDispatcher.Valid;
      var k := Marked(queue.fails, t, |rows|);
      var marked := IdsOf(rows[..k]);
      SomeOfTheRows(rows, k);
      StartedIsNotPending(was, marked, key);
      assert Waits() <==> PendingFor(was, key) - marked != {};
      if !(PendingFor(was, key) <= marked) {
        var id :| id in PendingFor(was, key) && id !in marked;
        assert id in PendingFor(was, key) - marked;
      }
      if k == |rows| {
        ClaimedAre(was, hand, marked, now);
      } else {
        assert dispatcher.pool.Keys == hand;
      }
    }

    lemma ClaimedAre(was: Table, hand: set<JobId>, marked: set<JobId>, now: int)
      requires Valid() && queue.table == Started(was, marked) && marked <= EligibleIds(was, now)
      requires dispatcher.pool.Keys == hand + marked && hand !! marked
      ensures Claimed(hand) <==> !(PendingFor(was, key) !! marked)
    {
      forall id | id in marked
        ensures id in dispatcher.pool && id !in hand
        ensures dispatcher.pool[id].job.coalescingKey == key <==> id in PendingFor(was, key)
      {
        assert dispatcher.pool[id].job == queue.table[id];
      }
      if id :| id in PendingFor(was, key) && id in marked {
        assert Claimed(hand);
      }
    }

    ghost predicate Bounded(inflight: int)
      reads dispatcher
    {
      dispatcher.inflight <= (if inflight > dispatcher.maxConcurrency then inflight else dispatcher.maxConcurrency)
    }

    lemma BoundedWhen(inflight: int)
      requires dispatcher.inflight <= (if inflight > dispatcher.maxConcurrency then inflight else dispatcher.maxConcurrency)
      ensures Bounded(inflight)
    {
    }

    lemma BoundedFurther(inflight: int)
      requires Bounded(inflight - 1)
      ensures Bounded(inflight)
    {
    }

    lemma BoundedMeans(inflight: int)
      requires Bounded(inflight) && inflight <= dispatcher.maxConcurrency
      ensures dispatcher.inflight <= dispatcher.maxConcurrency
    {
    }

    /** A job in hand ends, one way or another. */
    method Finish(id: JobId, cancelled: bool, outcome: Outcome)
      requires Valid() && id in dispatcher.pool
      modifies dispatcher`cancellations, dispatcher`inflight, dispatcher`pool, queue`table, queue`statements
      ensures Valid() && (old(NoLostChange()) ==> NoLostChange())
      ensures Evolves(old(queue.table), queue.table) && dispatcher.inflight == old(dispatcher.inflight) - 1
      ensures queue.table.Keys == old(queue.table.Keys)
      ensures old(queue.Healthy()) ==> queue.Healthy() && dispatcher.Stranded() == old(dispatcher.Stranded())
      ensures Ended(old(Shown()), Shown(), id, cancelled, outcome)
    {
      hide *;
      ShownIs();
      ghost var before := Shown();
      ValidMeans();
      CoverageIs();
      ghost var was, known := queue.table, dispatcher.pool[id].known;
      InHandRuns(dispatcher.pool, was, id);
      dispatcher.Finish(id, cancelled, outcome);
      EndedWhen(before, id, known, cancelled, outcome);
      ValidWhen();
      OthersStillWait(was, id);
      CoverageIs();
    }

    lemma EndedWhen(before: Moment, id: JobId, known: bool, cancelled: bool, outcome: Outcome)
      requires id in before.table && before.flags - {id} == dispatcher.cancellations
      requires (before.active, before.ingested, before.handed, before.seen) == (active, ingested, handed, seen)
      requires queue.table == before.table
        || (id in queue.table && queue.table == before.table[id := queue.table[id]] && IsBooked(before.table[id], known, cancelled, outcome, queue.table[id]))
      ensures Ended(before, Shown(), id, cancelled, outcome)
    {
    }

    lemma InHandRuns(pool: map<JobId, Task>, table: Table, id: JobId)
      requires dispatcher.Valid() && pool == dispatcher.pool && table == dispatcher.queue.table && id in pool
      ensures IsRunning(table, id)
    {
    }

    lemma OthersStillWait(was: Table, id: JobId)
      requires IsRunning(was, id)
      requires queue.table == was || (id in queue.table && queue.table == was[id := queue.table[id]])
      ensures Waits() <==> PendingFor(queue.table, key) != {}
      ensures PendingFor(was, key) != {} ==> Waits()
    {
      if PendingFor(was, key) != {} {
        var other :| other in PendingFor(was, key);
        assert other in PendingFor(queue.table, key);
      }
    }

    /**
     * The process ends, with jobs in hand and a batch in memory, and the next one makes its
     * interrupted jobs pending again. An event is still covered exactly if it had been seen or if
     * some row of this root is pending now: a batch that was only in memory is lost otherwise.
     */
    method Restart(debounceMs: int) returns (recovered: bool)
      requires Valid()
      modifies this, dispatcher`running, dispatcher`cancellations, dispatcher`inflight, dispatcher`pool, queue`table, queue`statements
      ensures Valid() && fresh(coalescer) && !coalescer.pending && !active
      ensures dispatcher.pool == map[] && dispatcher.inflight == 0 && !dispatcher.running
      ensures ingested == handed == old(ingested) && seen == old(seen)
      ensures queue.table == (if recovered then Recovered(old(queue.table)) else old(queue.table))
      ensures queue.table.Keys == old(queue.table.Keys) && Evolves(old(queue.table), queue.table)
      ensures forall event: nat | event < ingested :: Covered(event) <==> event < seen || Waits()
      ensures recovered ==> (Waits() <==> exists id :: OpenFor(old(queue.table), id))
      ensures old(queue.Healthy()) ==> queue.Healthy() && recovered && dispatcher.Stranded() == {}
      ensures Moved(Restarts(debounceMs), key, old(Shown()), Shown())
    {
      hide *;
      ShownIs();
      ghost var before := Shown();
      ValidMeans();
      ghost var was := queue.table;
      dispatcher.Crash();
      coalescer := new EventCoalescer(debounceMs, 2000);
      active, handed := false, ingested;
      dispatcher.ValidMeans();
      recovered := queue.RecoverInterruptedJobs();
      RecoveredKeeps(was);
      dispatcher.IdleIsValid();
      ValidWhen();
      CoveredAfterRestart();
      RestartMoves(before, debounceMs);
    }

    lemma RestartMoves(before: Moment, debounceMs: int)
      requires dispatcher.cancellations == map[] && !active && ingested == handed == before.ingested && seen == before.seen
      requires queue.table == before.table || queue.table == Recovered(before.table)
      ensures Moved(Restarts(debounceMs), key, before, Shown())
    {
    }

    lemma NothingWaits()
      ensures queue.table.Keys == {} ==> !Waits()
    {
    }

    lemma CoveredAfterRestart()
      requires ingested == handed
      ensures forall event: nat | event < ingested :: Covered(event) <==> event < seen || Waits()
      ensures Waits() <==> PendingFor(queue.table, key) != {}
      ensures queue == dispatcher.queue && dispatcher.pool == map[] ==> dispatcher.Stranded() == RunningIds(queue.table)
    {
    }

    /** A row of this root that is pending, or running for anybody or nobody. */
    ghost predicate OpenFor(table: Table, id: JobId) {
      id in table && table[id].coalescingKey == key && (table[id].state == Pending || table[id].state == Running)
    }

    lemma RecoveredKeeps(was: Table)
      ensures Evolves(was, Recovered(was)) && Evolves(was, was) && (Filed(was) ==> Filed(Recovered(was)))
      ensures PendingFor(Recovered(was), key) != {} <==> exists id :: OpenFor(was, id)
      ensures RunningIds(Recovered(was)) == {} && Recovered(was).Keys == was.Keys
    {
      if PendingFor(Recovered(was), key) != {} {
        var id :| id in PendingFor(Recovered(was), key);
        assert OpenFor(was, id);
      }
      if id :| OpenFor(was, id) {
        assert id in PendingFor(Recovered(was), key);
      }
    }

    /**
     * Opening the library starts the dispatcher, queues a first scan of the root under the key of
     * its watch, and starts the watch.
     */
    method StartUp(now: int, id: JobId) returns (queued: bool)
      requires Valid()
      modifies `active, `lastReconcileAt, `seen, dispatcher`running, dispatcher`cancellations, dispatcher`inflight, dispatcher`pool, queue`table, queue`statements
      ensures Valid() && active && dispatcher.running
      ensures Evolves(old(queue.table), queue.table) && Bounded(old(dispatcher.inflight))
      ensures queued ==> NoLostChange()
      ensures lastReconcileAt == Some(now)
      ensures old(queue.Healthy()) ==> queue.Healthy() && dispatcher.Stranded() == old(dispatcher.Stranded())
      ensures old(queue.Healthy()) && old(NoLostChange()) ==> NoLostChange()
      ensures old(queue.Healthy()) && id !in old(queue.table) ==> queued
      ensures queue.table.Keys <= old(queue.table.Keys) + {id}
      ensures Moved(StartsUp(now, id), key, old(Shown()), Shown())
    {
      hide *;
      ShownIs();
      ghost var was, before := queue.table, Shown();
      var rows := Begin(now);
      ShownIs();
      ghost var begun, mid := queue.table, Shown();
      ValidMeans();
      CoverageIs();
      var enqueued := EnqueueRoot(SCAN_ROOT, id, now);
      queued, active := enqueued.Some?, true;
      ValidWhen();
      CoverageIs();
      EvolvesFurther(was, begun, queue.table);
      StartUpMoves(before, mid, now, id);
    }

    lemma StartUpMoves(before: Moment, mid: Moment, now: int, id: JobId)
      requires Advanced(before, mid, key, now) && active
      requires (mid.flags, mid.ingested, mid.handed, mid.seen) == (dispatcher.cancellations, ingested, handed, seen)
      requires queue.table == mid.table || (id !in mid.table && queue.table == mid.table[id := RootJob(SCAN_ROOT, id, key, now)])
      ensures Moved(StartsUp(now, id), key, before, Shown())
    {
      hide Advanced;
    }

    method Begin(now: int) returns (ghost rows: seq<Job>)
      requires Valid()
      modifies `seen, dispatcher`running, dispatcher`cancellations, dispatcher`inflight, dispatcher`pool, queue`table, queue`statements
      ensures Valid() && dispatcher.running
      ensures if !old(dispatcher.running) && queue.open && old(dispatcher.inflight) < dispatcher.maxConcurrency
        then IsSelection(rows, old(queue.table), EligibleIds(old(queue.table), now), dispatcher.maxConcurrency - old(dispatcher.inflight))
        else rows == []
      ensures var k := Marked(queue.fails, old(queue.statements), |rows|);
        old(NoLostChange()) ==>
          (NoLostChange() <==> !(0 < k < |rows| && old(seen) < handed && PendingFor(old(queue.table), key) <= IdsOf(rows[..k])))
      ensures Evolves(old(queue.table), queue.table) && Bounded(old(dispatcher.inflight))
      ensures old(queue.Healthy()) ==> queue.Healthy() && dispatcher.Stranded() == old(dispatcher.Stranded())
      ensures old(queue.Healthy()) && old(NoLostChange()) ==> NoLostChange()
      ensures queue.table.Keys == old(queue.table.Keys)
      ensures Advanced(old(Shown()), Shown(), key, now)
    {
      hide *;
      ShownIs();
      ghost var before := Shown();
      ValidMeans();
      CoverageIs();
      dispatcher.ValidMeans();
      ghost var was, hand, t, inflight := queue.table, dispatcher.pool.Keys, queue.statements, dispatcher.inflight;
      HandIsNotEligible(was, now);
      ghost var healthy := queue.Healthy();
      rows := dispatcher.Start(now);
      BoundedWhen(inflight);
      ValidWhen();
      if healthy { HealthyDispatch(was, hand, t, now, rows); }
      ClaimedOrPending(was, hand, t, now, rows);
      Between(PendingFor(was, key), IdsOf(rows[..Marked(queue.fails, t, |rows|)]));
      NoteClaims(hand);
      CoverageIs();
      DispatchAdvances(before, hand, t, now, rows);
    }

    /** Another part of the program queues a job. */
    method Enqueue(record: Job)
      requires Valid()
      modifies queue`table, queue`statements
      ensures Valid() && (old(NoLostChange()) ==> NoLostChange())
      ensures Evolves(old(queue.table), queue.table)
      ensures old(queue.Healthy()) ==> queue.Healthy()
      ensures record.state != Running && old(queue.Healthy()) ==> dispatcher.Stranded() == old(dispatcher.Stranded())
      ensures record.coalescingKey == "" && queue.open && !queue.fails(old(queue.statements)) && record.id !in old(queue.table) ==>
        queue.statements == old(queue.statements) + 1 && queue.table == old(queue.table)[record.id := record]
      ensures queue.table.Keys <= old(queue.table.Keys) + {record.id}
      ensures Moved(Queues(record), key, old(Shown()), Shown())
    {
      hide Evolves, Filed, NoLostChange, JobQueue.CanTake, RunningIds, PendingFor;
      CoverageIs();
      ghost var was := queue.table;
      var id := queue.Enqueue(record);
      NotRunningAtFirst(was, record);
      PendingStays(was, queue.table);
      CoverageIs();
    }

    lemma NotRunningAtFirst(table: Table, record: Job)
      ensures record.state != Running && record.id !in table ==> RunningIds(table[record.id := record]) == RunningIds(table)
    {
    }

    // ----- runs -----

    /** Starting forgets the batch of an earlier watch; ingestion is active before the adapter reports anything. */
    method Start(now: int, debounceMs: int, reported: seq<Event>, ok: bool)
      requires Valid()
      modifies this
      ensures Valid() && fresh(coalescer) && active == ok && lastReconcileAt == Some(now)
      ensures NoLostChange() && ingested == coalescer.pendingEventCount == |reported| && seen == handed == 0
    {
      hide InHand, Filed;
      coalescer := new EventCoalescer(debounceMs, 2000);
      lastReconcileAt, active := Some(now), true;
      ingested, handed, seen := 0, 0, 0;
      for i := 0 to |reported|
        invariant Valid() && fresh(coalescer) && active && lastReconcileAt == Some(now)
        invariant NoLostChange() && ingested == i && seen == handed == 0
      {
        OnAdapterEvent(reported[i], now);
      }
      active := ok;
    }

    /** A step that cannot happen now leaves everything alone. */
    method Take(step: Step)
      requires Valid()
      modifies this, coalescer, dispatcher`running, dispatcher`cancellations, dispatcher`inflight, dispatcher`pool, queue`table, queue`statements
      ensures Valid() && (coalescer == old(coalescer) || fresh(coalescer))
      ensures Evolves(old(queue.table), queue.table) && Bounded(old(dispatcher.inflight))
      ensures queue.table.Keys <= old(queue.table.Keys) + step.NewIds()
      ensures Moved(step, key, old(Shown()), Shown())
      // With a healthy queue only the end of the process can lose a change, and starting up makes good for it.
      ensures old(queue.Healthy()) && step.NewIds() !! old(queue.table.Keys) && (step.StartsUp? || (old(NoLostChange()) && !step.Restarts?)) ==> NoLostChange()
      ensures old(queue.Healthy()) ==> queue.Healthy()
      ensures old(queue.Healthy()) && old(dispatcher.Stranded()) == {} && (step.Queues? ==> step.record.state != Running) ==>
        dispatcher.Stranded() == {}
    {
      hide Evolves, NoLostChange, InHand, Filed, RunningIds, Waits, Dispatched, IdsOf, Marked, PendingFor, EventCoalescer.Valid, Advanced,
           Ended, Queued, IsQueued;
      StartedEvolves(queue.table, {});
      match step
      case Happens(event, at) => OnAdapterEvent(event, at);
      case Ticks(at, id) => var _ := OnTimerTick(at, id);
      case Dispatches(at) => var _ := Dispatch(at);
      case Ends(id, cancelled, outcome, at) => EndJob(id, cancelled, outcome, at);
      case Cancels(id) => RequestCancellation(id);
      case Restarts(debounceMs) => var _ := Restart(debounceMs);
      case StartsUp(at, id) => var _ := StartUp(at, id);
      case Queues(record) => Enqueue(record);
    }

    method RequestCancellation(id: JobId)
      requires Valid()
      modifies dispatcher`cancellations
      ensures Valid() && (old(NoLostChange()) ==> NoLostChange())
      ensures Moved(Cancels(id), key, old(Shown()), Shown())
    {
      CoverageIs();
      dispatcher.RequestCancellation(id);
      CoverageIs();
    }

    method EndJob(id: JobId, cancelled: bool, outcome: Outcome, now: int)
      requires Valid()
      modifies `seen, dispatcher`cancellations, dispatcher`inflight, dispatcher`pool, queue`table, queue`statements
      ensures Valid() && Evolves(old(queue.table), queue.table) && Bounded(old(dispatcher.inflight))
      ensures old(queue.Healthy()) && old(NoLostChange()) ==> NoLostChange()
      ensures old(queue.Healthy()) ==> queue.Healthy() && dispatcher.Stranded() == old(dispatcher.Stranded())
      ensures queue.table.Keys == old(queue.table.Keys)
      ensures Moved(Ends(id, cancelled, outcome, now), key, old(Shown()), Shown())
    {
      hide *;
      ShownIs();
      ghost var before := Shown();
      ValidMeans();
      HandIsFlagged();
      StillThere(id, cancelled, outcome, now);
      StartedEvolves(queue.table, {});
      BoundedWhen(dispatcher.inflight);
      if id in dispatcher.pool && (cancelled ==> dispatcher.CanCancel(id)) {
        ghost var was, inflight := queue.table, dispatcher.inflight;
        Finish(id, cancelled, outcome);
        ShownIs();
        ghost var finished, mid := queue.table, Shown();
        var _ := Dispatch(now);
        EndMoves(before, mid, id, cancelled, outcome, now);
        BoundedFurther(inflight);
        EvolvesFurther(was, finished, queue.table);
      }
    }

    lemma HandIsFlagged()
      requires Valid()
      ensures forall id :: id in dispatcher.pool <==> id in dispatcher.cancellations
      ensures forall id :: dispatcher.CanCancel(id) <==> id in dispatcher.cancellations && dispatcher.cancellations[id]
    {
    }

    lemma StillThere(id: JobId, cancelled: bool, outcome: Outcome, now: int)
      ensures !(id in dispatcher.cancellations && (cancelled ==> dispatcher.cancellations[id])) ==>
        Moved(Ends(id, cancelled, outcome, now), key, Shown(), Shown())
    {
    }

    lemma EndMoves(before: Moment, mid: Moment, id: JobId, cancelled: bool, outcome: Outcome, now: int)
      requires id in before.flags && (cancelled ==> before.flags[id])
      requires Ended(before, mid, id, cancelled, outcome) && Advanced(mid, Shown(), key, now)
      ensures Moved(Ends(id, cancelled, outcome, now), key, before, Shown())
    {
    }

    /**
     * Over every run of events, ticks, dispatches, completions, retries and process ends in which
     * the queue works and job ids are fresh, every event is still to be worked on or was before the
     * last claim of its root's job, if each end of the process was followed by a start-up. Finished
     * jobs never change, no more jobs run than allowed, and none runs for nobody. `trace` shows what
     * each step did.
     */
    method Run(steps: seq<Step>) returns (ghost trace: seq<Moment>)
      requires Valid() && NoLostChange() && dispatcher.inflight <= dispatcher.maxConcurrency
      modifies this, coalescer, dispatcher`running, dispatcher`cancellations, dispatcher`inflight, dispatcher`pool, queue`table, queue`statements
      ensures Valid() && Evolves(old(queue.table), queue.table) && dispatcher.inflight <= dispatcher.maxConcurrency
      ensures old(queue.Healthy()) && FreshIds(steps, old(queue.table.Keys)) && StartedUp(steps) ==> NoLostChange()
      ensures old(queue.Healthy()) && old(dispatcher.Stranded()) == {} && (forall s | s in steps && s.Queues? :: s.record.state != Running) ==>
        |RunningIds(queue.table)| == dispatcher.inflight && RunningIds(queue.table) == dispatcher.cancellations.Keys
      ensures |trace| == |steps| + 1 && trace[0] == old(Shown()) && trace[|steps|] == Shown()
      ensures forall i | 0 <= i < |steps| :: Moved(steps[i], key, trace[i], trace[i + 1])
    {
      hide *;
      ghost var was, healthy, keys := queue.table, queue.Healthy(), queue.table.Keys;
      ghost var sound := healthy && dispatcher.Stranded() == {} && forall s | s in steps && s.Queues? :: s.record.state != Running;
      StartedEvolves(was, {});
      StartedUpAtFirst(steps);
      trace := [Shown()];
      for i := 0 to |steps|
        invariant Valid() && (coalescer == old(coalescer) || fresh(coalescer))
        invariant Evolves(was, queue.table) && dispatcher.inflight <= dispatcher.maxConcurrency
        invariant healthy ==> queue.Healthy()
        invariant queue.table.Keys <= keys + NewIds(steps[..i])
        invariant healthy && FreshIds(steps, keys) && StartedUp(steps[..i]) ==> NoLostChange()
        invariant sound ==> dispatcher.Stranded() == {}
        invariant |trace| == i + 1 && trace[0] == old(Shown()) && trace[i] == Shown()
        invariant forall k | 0 <= k < i :: Moved(steps[k], key, trace[k], trace[k + 1])
      {
        ghost var before, inflight := queue.table, dispatcher.inflight;
        OneMoreStep(steps, i, keys, before.Keys);
        assert steps[i] in steps;
        Take(steps[i]);
        BoundedMeans(inflight);
        EvolvesFurther(was, before, queue.table);
        trace := trace + [Shown()];
      }
      assert steps[..|steps|] == steps;
      ValidMeans();
      dispatcher.StrandedRowsMakeTheDifference();
    }
  }

  // ----- how a change is lost -----

  /** A watch whose first event became a job. */
  method ABatchIsQueued(fails: nat -> bool, event: Event, path: string, id: JobId) returns (watch: WatchService)
    requires !fails(0) && !fails(1)
    ensures watch.Valid() && watch.key == "watch-reconcile:" + path && watch.queue.fails == fails
    ensures fresh(watch) && fresh(watch.coalescer) && fresh(watch.dispatcher) && fresh(watch.queue)
    ensures !watch.dispatcher.running && watch.queue.open && watch.dispatcher.inflight == 0 && watch.dispatcher.maxConcurrency == 2
    ensures watch.NoLostChange() && watch.seen < watch.handed && watch.queue.statements == 2
    ensures watch.queue.table == map[][id := RootJob(RECONCILE_ROOT, id, watch.key, 0)]
  {
    hide *;
    var queue := new JobQueue(fails);
    var dispatcher := new JobDispatcher(queue);
    dispatcher.SetMaxConcurrency(2);
    watch := new WatchService(dispatcher, path, 0, 0);
    watch.OnAdapterEvent(event, 0);
    watch.NothingWaits();
    watch.CanQueueWhen(id);
    var queued := watch.OnTimerTick(0, id);
  }

  /**
   * An event becomes a job that is claimed together with another one, and marking the other one
   * fails: the first job runs for nobody, and nothing will scan the root for the event.
   */
  method AFailedClaimLosesAChange(event: Event, path: string, id: JobId, other: Job) returns (watch: WatchService)
    requires id != other.id && other.state == Pending && other.coalescingKey == "" && other.notBefore == None
    requires other.priority > BACKGROUND
    ensures !watch.NoLostChange()
  {
    hide *;
    watch := ABatchIsQueued(t => t == 5, event, path, id);
    watch.Enqueue(other);
    ghost var was := watch.queue.table;
    var rows := watch.Begin(0);
    OursIsMarkedFirst(id, watch.key, other, was, watch.queue.fails, 3, 0, rows);
  }

  /** An event whose batch was still in memory when the process ended is lost. */
  method ABatchInMemoryIsLost(event: Event, path: string) returns (watch: WatchService)
    ensures !watch.NoLostChange()
  {
    hide *;
    var queue := new JobQueue(_ => false);
    var dispatcher := new JobDispatcher(queue);
    watch := new WatchService(dispatcher, path, 300, 0);
    watch.OnAdapterEvent(event, 0);
    var recovered := watch.Restart(300);
    watch.NothingWaits();
    watch.CoverageIs();
  }

  lemma OursIsMarkedFirst(id: JobId, key: string, other: Job, was: Table, fails: nat -> bool, t: nat, now: int, rows: seq<Job>)
    requires was == map[][id := RootJob(RECONCILE_ROOT, id, key, 0)][other.id := other] && id != other.id
    requires other.state == Pending && other.coalescingKey == "" != key && other.notBefore == None && other.priority > BACKGROUND
    requires !fails(t) && !fails(t + 1) && fails(t + 2)
    requires IsSelection(rows, was, EligibleIds(was, now), 2)
    ensures |rows| == 2 && Marked(fails, t, 2) == 1
    ensures PendingFor(was, key) <= IdsOf(rows[..1])
  {
    hide Marked, Working;
    var ours := RootJob(RECONCILE_ROOT, id, key, 0);
    BothEligible(ours, other, was, now);
    MarkedFirst(fails, t);
    assert EligibleIds(was, now) == {id, other.id};
    assert PendingFor(was, key) == {id};
    SelectionIsPicked(rows, was, EligibleIds(was, now), 2);
    assert rows[0] == ours;
    assert rows[..1] == [ours] && ours in rows[..1];
  }
}
