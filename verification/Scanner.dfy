/** The scanner: walks the listed files, stages what changed, commits in batches. */
module Scanner {
  import opened Media
  import opened IdOrder
  import opened ScanLaws

  /** The records of the durable store, as its interface promises them: commit is atomic. */
  class RecordStore {
    var committed: Records
    var staged: Records
    var removed: set<Id>
    var commits: nat

    constructor (committed: Records)
      ensures this.committed == committed && staged == map[] && removed == {} && commits == 0
    {
      this.committed := committed;
      staged, removed, commits := map[], {}, 0;
    }

    predicate HasStagedChanges()
      reads this
    {
      staged != map[] || removed != {}
    }

    method Stage(r: Record)
      modifies `staged
      ensures staged == old(staged)[r.id := r]
    {
      staged := staged[r.id := r];
    }

    method Remove(id: Id)
      modifies `staged, `removed
      ensures staged == old(staged) - {id} && removed == old(removed) + {id}
    {
      staged, removed := staged - {id}, removed + {id};
    }

    method Commit()
      modifies this
      ensures committed == old(committed) - old(removed) + old(staged)
      ensures staged == map[] && removed == {} && commits == old(commits) + 1
    {
      committed := committed - removed + staged;
      staged, removed, commits := map[], {}, commits + 1;
    }

    method DiscardStaged()
      modifies `staged, `removed
      ensures staged == map[] && removed == {}
    {
      staged, removed := map[], {};
    }

    /** Every committed id, in order. */
    method ListIds() returns (ids: seq<Id>)
      ensures Sorted(ids) && Elements(ids) == committed.Keys
    {
      ids := [];
      var todo := committed.Keys;
      while todo != {}
        invariant todo <= committed.Keys
        invariant Sorted(ids)
        invariant Elements(ids) == committed.Keys - todo
        invariant forall id, later | id in ids && later in todo :: Before(id, later)
      {
        var next :| next in todo;
        var rest := todo - {next};
        while rest != {}
          invariant next in todo && rest <= todo - {next}
          invariant forall id | id in todo - rest && id != next :: Before(next, id)
        {
          var id :| id in rest;
          BeforeIsTotal(id, next);
          if Before(id, next) {
            forall other | other in todo - rest && other != next ensures Before(id, other) {
              BeforeIsTransitive(id, next, other);
            }
            next := id;
          }
          rest := rest - {id};
        }
        ElementsAppend(ids, next);
        ids := ids + [next];
        todo := todo - {next};
      }
    }
  }

  // ----- the two indexes a scan looks records up in -----

  /** `rs` lists the records of `ids` in id order. */
  ghost predicate Lists(base: Records, rs: seq<Record>, ids: set<Id>) {
    && (forall k | 0 <= k < |rs| :: rs[k].id in base && base[rs[k].id] == rs[k])
    && (forall k, l | 0 <= k < l < |rs| :: Before(rs[k].id, rs[l].id))
    && (forall id :: id in ids <==> exists k | 0 <= k < |rs| :: rs[k].id == id)
  }

  lemma HeadOfList(base: Records, rs: seq<Record>, ids: set<Id>)
    requires Lists(base, rs, ids) && ids != {}
    ensures rs != [] && rs[0] == base[First(ids)]
  {
    assert rs[0].id in ids;
    assert IsFirst(rs[0].id, ids);
    FirstIsUnique(ids, rs[0].id, First(ids));
  }

  function WithDigest(s: Setting, base: Records, digest: Digest): set<Id> {
    set id | id in base && s.inRoot(RecordKey(s, base[id])) && base[id].fingerprint.IsValid() && base[id].fingerprint.digest == digest
  }

  ghost predicate PathIndex(s: Setting, base: Records, byPath: map<Path, seq<Record>>) {
    && (forall key :: key in byPath <==> At(s, base, key) != {})
    && (forall key | key in byPath :: Lists(base, byPath[key], At(s, base, key)))
  }

  ghost predicate DigestIndex(s: Setting, base: Records, byDigest: map<Digest, seq<Record>>) {
    && (forall d | d !in byDigest :: WithDigest(s, base, d) == {})
    && (forall d | d in byDigest :: Lists(base, byDigest[d], WithDigest(s, base, d)))
  }

  function Among(base: Records, ids: set<Id>): Records {
    map id | id in base && id in ids :: base[id]
  }

  function ListAt<K>(index: map<K, seq<Record>>, key: K): seq<Record> {
    if key in index then index[key] else []
  }

  /** Appending a record whose id comes after every listed one keeps a list in order. */
  lemma Appended(base: Records, more: Records, rs: seq<Record>, ids: set<Id>, r: Record)
    requires Lists(base, rs, ids) && more == base[r.id := r] && r.id !in base
    requires forall id | id in base :: Before(id, r.id)
    ensures Lists(more, rs + [r], ids + {r.id})
  {
    var longer := rs + [r];
    assert longer[|rs|] == r;
    assert forall k | 0 <= k < |rs| :: longer[k] == rs[k];
  }

  lemma KnownIdMatches(s: Setting, base: Records, byPath: map<Path, seq<Record>>, key: Path)
    requires PathIndex(s, base, byPath) && key in byPath
    ensures byPath[key] != [] && At(s, base, key) != {} && byPath[key][0].id == First(At(s, base, key))
  {
    var rs, ids := byPath[key], At(s, base, key);
    assert Lists(base, rs, ids);
    assert rs[0].id in ids;
    assert IsFirst(rs[0].id, ids);
    FirstIsUnique(ids, rs[0].id, First(ids));
  }

  lemma NothingListed(base: Records)
    ensures Lists(base, [], {})
  {
  }

  lemma SameList(base: Records, more: Records, rs: seq<Record>, ids: set<Id>, r: Record)
    requires Lists(base, rs, ids) && more == base[r.id := r] && r.id !in base
    ensures Lists(more, rs, ids)
  {
  }

  /** A batch that became durable, and the store as it was when the batch was reported. */
  datatype Report = Report(records: seq<Record>, committed: Records)

  function Reported(reports: seq<Report>): seq<Record> {
    if reports == [] then [] else Reported(reports[..|reports| - 1]) + reports[|reports| - 1].records
  }

  lemma ReportedMore(reports: seq<Report>, r: Report)
    ensures Reported(reports + [r]) == Reported(reports) + r.records
  {
    assert (reports + [r])[..|reports|] == reports;
  }

  /** Committing a batch over a prefix is the longer prefix. */
  lemma {:induction false} StoredInBatches(base: Records, log: seq<Record>, batch: seq<Record>)
    ensures Stored(base, log) - {} + Stored(map[], batch) == Stored(base, log + batch)
  {
    if batch == [] {
      assert log + [] == log;
    } else {
      var init, last := batch[..|batch| - 1], batch[|batch| - 1];
      StoredInBatches(base, log, init);
      assert (log + batch)[..|log + batch| - 1] == log + init;
      assert (log + batch)[|log + batch| - 1] == last;
    }
  }

  /** Every staged record of a prefix is in the prefix's store as staged. */
  lemma {:induction false} LogIsStored(scan: ScanRun, n: nat, k: nat)
    requires scan.Valid() && n <= |scan.entries| && k < |scan.State(n).log|
    ensures var r := scan.State(n).log[k]; r.id in scan.Partial(n) && scan.Partial(n)[r.id] == r
    ensures exists i: nat | i < n :: Stages(scan.VerdictAt(i)) && scan.VerdictAt(i).record == scan.State(n).log[k]
  {
    hide Judge, ScanRun.Partial;
    assert scan.State(n) == Advance(scan.State(n - 1), scan.KeyAt(n - 1), scan.VerdictAt(n - 1));
    if k < |scan.State(n - 1).log| {
      LogIsStored(scan, n - 1, k);
      var i: nat :| i < n - 1 && Stages(scan.VerdictAt(i)) && scan.VerdictAt(i).record == scan.State(n).log[k];
      StagedIsStored(scan, n, i);
    } else {
      StagedIsStored(scan, n, n - 1);
    }
  }

  ghost predicate ReportsAreDurable(reports: seq<Report>) {
    forall i | 0 <= i < |reports| ::
      reports[i].records != [] && forall k | 0 <= k < |reports[i].records| ::
        var r := reports[i].records[k]; r.id in reports[i].committed && reports[i].committed[r.id] == r
  }

  /** Committing the pending batch gives the next prefix, in which each of its records is stored. */
  lemma BatchIsDurable(scan: ScanRun, n: nat, j: nat, pending: seq<Record>)
    requires scan.Valid() && j <= n <= |scan.entries|
    requires scan.State(n).log == scan.State(j).log + pending
    ensures scan.Partial(j) - {} + Stored(map[], pending) == scan.Partial(n)
    ensures forall k | 0 <= k < |pending| :: pending[k].id in scan.Partial(n) && scan.Partial(n)[pending[k].id] == pending[k]
  {
    hide Judge, ScanRun.Valid, ScanRun.State, ScanRun.VerdictAt;
    assert |scan.entries| == |scan.supply| by { SameLength(scan); }
    StoredInBatches(scan.base, scan.State(j).log, pending);
    forall k | 0 <= k < |pending|
      ensures pending[k].id in scan.Partial(n) && scan.Partial(n)[pending[k].id] == pending[k]
    {
      assert pending[k] == scan.State(n).log[|scan.State(j).log| + k];
      LogIsStored(scan, n, |scan.State(j).log| + k);
    }
  }

  lemma SameLength(scan: ScanRun)
    requires scan.Valid()
    ensures |scan.entries| == |scan.supply|
  {
  }

  lemma {:induction false} StoredKeys(log: seq<Record>, id: Id)
    ensures id in Stored(map[], log) <==> exists k | 0 <= k < |log| :: log[k].id == id
  {
    if log != [] {
      StoredKeys(log[..|log| - 1], id);
      assert log[|log| - 1].id == id || forall k | 0 <= k < |log| :: log[k].id == id ==> k < |log| - 1;
    }
  }

  lemma StagedIsSeen(scan: ScanRun, n: nat, j: nat, pending: seq<Record>)
    requires scan.Valid() && j <= n <= |scan.entries| && scan.State(n).log == scan.State(j).log + pending
    ensures Stored(map[], pending).Keys <= scan.State(n).seen
  {
    hide Judge, ScanRun.Valid, ScanRun.State, ScanRun.VerdictAt;
    assert |scan.entries| == |scan.supply| by { SameLength(scan); }
    StateInClosedForm(scan, n);
    forall id | id in Stored(map[], pending) ensures id in scan.State(n).seen {
      StoredKeys(pending, id);
      var k :| 0 <= k < |pending| && pending[k].id == id;
      assert pending[k] == scan.State(n).log[|scan.State(j).log| + k];
      LogIsStored(scan, n, |scan.State(j).log| + k);
      var i: nat :| i < n && Stages(scan.VerdictAt(i)) && scan.VerdictAt(i).record == pending[k];
      assert scan.Serves(i, id);
    }
  }

  ghost function DuplicatesIn(scan: ScanRun, keys: set<Path>): set<Id>
    requires |scan.entries| == |scan.supply|
  {
    set id | id in scan.Duplicates() && RecordKey(scan.s, scan.base[id]) in keys
  }

  lemma DuplicatesSplit(scan: ScanRun, keys: set<Path>, key: Path)
    requires |scan.entries| == |scan.supply| && key in keys
    ensures DuplicatesIn(scan, keys) == DuplicatesIn(scan, keys - {key}) + DuplicatesIn(scan, {key})
    ensures scan.Duplicates() - DuplicatesIn(scan, keys - {key}) == scan.Duplicates() - DuplicatesIn(scan, keys) + DuplicatesIn(scan, {key})
  {
    hide ScanRun.Duplicates;
  }

  /** Once the listed duplicates of one path more are staged for removal. */
  lemma DuplicatesFurther(scan: ScanRun, byPath: map<Path, seq<Record>>, todo: set<Path>, key: Path, before: set<Id>, after: set<Id>)
    requires |scan.entries| == |scan.supply| && PathIndex(scan.s, scan.base, byPath) && key in todo && todo <= byPath.Keys
    requires before == scan.Duplicates() - DuplicatesIn(scan, todo)
    requires var st := scan.State(|scan.entries|); var reconciled := key in scan.Found() && key !in st.failed;
      after == before + set l | 0 <= l < |byPath[key]| && reconciled && byPath[key][l].id !in st.seen :: byPath[key][l].id
    ensures after == scan.Duplicates() - DuplicatesIn(scan, todo - {key})
  {
    hide ScanRun.Duplicates, ScanRun.State, ScanRun.Found, PathIndex, DuplicatesIn;
    DuplicatesAtPath(scan, byPath, key);
    DuplicatesSplit(scan, todo, key);
  }

  lemma EveryDuplicateIsIndexed(scan: ScanRun, byPath: map<Path, seq<Record>>)
    requires |scan.entries| == |scan.supply| && PathIndex(scan.s, scan.base, byPath)
    ensures DuplicatesIn(scan, byPath.Keys) == scan.Duplicates() && DuplicatesIn(scan, {}) == {}
  {
    forall id | id in scan.Duplicates() ensures RecordKey(scan.s, scan.base[id]) in byPath {
      assert id in At(scan.s, scan.base, RecordKey(scan.s, scan.base[id]));
    }
  }

  /** The duplicates at a path are the listed records there that the removal pass selects. */
  lemma DuplicatesAtPath(scan: ScanRun, byPath: map<Path, seq<Record>>, key: Path)
    requires |scan.entries| == |scan.supply| && PathIndex(scan.s, scan.base, byPath) && key in byPath
    ensures var st := scan.State(|scan.entries|); var reconciled := key in scan.Found() && key !in st.failed;
      DuplicatesIn(scan, {key}) == set l | 0 <= l < |byPath[key]| && reconciled && byPath[key][l].id !in st.seen :: byPath[key][l].id
  {
    hide ScanRun.State;
    var records, ids := byPath[key], At(scan.s, scan.base, key);
    assert Lists(scan.base, records, ids);
    forall l | 0 <= l < |records| ensures records[l].id in ids {
    }
    forall id | id in DuplicatesIn(scan, {key}) ensures exists l | 0 <= l < |records| :: records[l].id == id {
      assert id in ids;
    }
  }

  // ----- how often a scan asks whether it is cancelled -----

  /** The records under the root at these paths. */
  function UnderKeys(s: Setting, base: Records, keys: set<Path>): set<Id> {
    set id | id in base && s.inRoot(RecordKey(s, base[id])) && RecordKey(s, base[id]) in keys
  }

  function UnderRoot(s: Setting, base: Records): set<Id> {
    set id | id in base && s.inRoot(s.keyOf(base[id].identity.absolutePath))
  }

  lemma {:induction false} ListIsCounted(base: Records, rs: seq<Record>, ids: set<Id>)
    requires Lists(base, rs, ids)
    ensures |rs| == |ids|
  {
    if rs == [] {
      assert ids == {};
    } else {
      var rest, last := rs[..|rs| - 1], rs[|rs| - 1];
      BeforeIsStrict(last.id);
      forall id ensures id in ids - {last.id} <==> exists k | 0 <= k < |rest| :: rest[k].id == id {
        if k :| 0 <= k < |rest| && rest[k].id == id { assert rs[k].id == id; }
        if id in ids && id != last.id {
          var k :| 0 <= k < |rs| && rs[k].id == id;
          assert rest[k].id == id;
        }
      }
      assert last.id in ids;
      ListIsCounted(base, rest, ids - {last.id});
    }
  }

  /** One more path, with the records listed there. */
  lemma OneMorePath(s: Setting, base: Records, byPath: map<Path, seq<Record>>, done: set<Path>, key: Path)
    requires PathIndex(s, base, byPath) && key in byPath && key !in done
    ensures |UnderKeys(s, base, done + {key})| == |UnderKeys(s, base, done)| + |byPath[key]| <= |UnderRoot(s, base)|
  {
    var before, here, after := UnderKeys(s, base, done), At(s, base, key), UnderKeys(s, base, done + {key});
    ListIsCounted(base, byPath[key], here);
    assert after == before + here && before !! here;
    assert after <= UnderRoot(s, base);
    SubsetIsSmaller(after, UnderRoot(s, base));
  }

  lemma SubsetIsSmaller(a: set<Id>, b: set<Id>)
    requires a <= b
    ensures |a| <= |b|
  {
    assert |b - a| == |b| - |a|;
  }

  lemma EveryPathIsIndexed(s: Setting, base: Records, byPath: map<Path, seq<Record>>)
    requires PathIndex(s, base, byPath)
    ensures UnderKeys(s, base, byPath.Keys) == UnderRoot(s, base) && UnderKeys(s, base, {}) == {}
  {
    forall id | id in UnderRoot(s, base) ensures RecordKey(s, base[id]) in byPath {
      assert id in At(s, base, RecordKey(s, base[id]));
    }
  }

  /** The scan after `i` entries, of which the work of the first `j` is committed and reported. */
  ghost predicate Midway(scan: ScanRun, i: nat, j: nat, result: ScanState, pending: seq<Record>, reports: seq<Report>) {
    && scan.Valid() && j <= i <= |scan.entries|
    && result == scan.State(i)
    && result.log == scan.State(j).log + pending
    && Reported(reports) == scan.State(j).log
    && ReportsAreDurable(reports)
  }

  lemma MidwayStart(scan: ScanRun)
    requires scan.Valid()
    ensures Midway(scan, 0, 0, START, [], []) && scan.Partial(0) == scan.base && Stored(map[], []) == map[]
  {
  }

  lemma MidwayStep(scan: ScanRun, i: nat, j: nat, result: ScanState, pending: seq<Record>, reports: seq<Report>, v: Verdict)
    requires Midway(scan, i, j, result, pending, reports) && i < |scan.entries|
    requires v == Judge(scan.s, scan.base, scan.Found(), result.seen, scan.entries[i], scan.supply[i])
    ensures Midway(scan, i + 1, j, Advance(result, scan.KeyAt(i), v), if Stages(v) then pending + [v.record] else pending, reports)
    ensures Stages(v) ==> Stored(map[], pending + [v.record]) == Stored(map[], pending)[v.record.id := v.record]
    ensures Advance(result, scan.KeyAt(i), v).log == [] ==> !Stages(v) && result.log == []
  {
    hide Judge, ReportsAreDurable, Reported;
    assert scan.State(i + 1) == Advance(scan.State(i), scan.KeyAt(i), scan.VerdictAt(i));
    if Stages(v) {
      assert (pending + [v.record])[..|pending|] == pending;
      assert result.log + [v.record] == scan.State(j).log + (pending + [v.record]);
    }
  }

  lemma ValidSizes(scan: ScanRun)
    requires scan.Valid()
    ensures |scan.entries| == |scan.supply|
  {
  }

  lemma NothingStored()
    ensures Stored(map[], []) == map[]
  {
  }

  lemma MidwayCommit(scan: ScanRun, i: nat, j: nat, result: ScanState, pending: seq<Record>, reports: seq<Report>)
    requires Midway(scan, i, j, result, pending, reports)
    ensures Stored(map[], pending) == map[] <==> pending == []
    ensures scan.Partial(j) - {} + Stored(map[], pending) == scan.Partial(i)
    ensures Midway(scan, i, i, result, [], if pending == [] then reports else reports + [Report(pending, scan.Partial(i))])
  {
    hide Judge, ScanRun.State, ScanRun.Partial, ScanRun.Valid, ReportsAreDurable, Reported, Stored;
    ValidSizes(scan);
    BatchIsDurable(scan, i, j, pending);
    if pending == [] {
      assert scan.State(j).log + [] == scan.State(j).log;
      NothingStored();
    } else {
      StoredKeys(pending, pending[0].id);
      DurableMore(reports, Report(pending, scan.Partial(i)));
      ReportedMore(reports, Report(pending, scan.Partial(i)));
    }
  }

  ghost predicate FullBatches(reports: seq<Report>, size: nat) {
    forall i | 0 <= i < |reports| :: |reports[i].records| == size
  }

  lemma MidwayCounts(scan: ScanRun, i: nat, j: nat, result: ScanState, pending: seq<Record>, reports: seq<Report>)
    requires Midway(scan, i, j, result, pending, reports)
    ensures |scan.entries| == |scan.supply| && i <= |scan.entries| && |Reported(reports)| + |pending| == |scan.State(i).log|
  {
    hide ScanRun.State;
  }

  /** What is committed and reported when the scan stops here. */
  lemma MidwayStop(scan: ScanRun, i: nat, j: nat, result: ScanState, pending: seq<Record>, reports: seq<Report>)
    requires Midway(scan, i, j, result, pending, reports)
    ensures j <= |scan.entries| && Reported(reports) == scan.State(j).log && ReportsAreDurable(reports)
    ensures result == scan.State(i)
    ensures Stored(map[], pending).Keys <= result.seen
  {
    hide Judge, ScanRun.State, ScanRun.Valid;
    StagedIsSeen(scan, i, j, pending);
  }

  /** The last commit: the pending batch joins and the duplicates go. */
  lemma FinishScan(scan: ScanRun, j: nat, result: ScanState, pending: seq<Record>, reports: seq<Report>)
    requires scan.Valid() && j <= |scan.entries|
    requires Midway(scan, |scan.entries|, j, result, pending, reports)
    ensures scan.Partial(j) - scan.Duplicates() + Stored(map[], pending) == scan.Outcome()
    ensures result == scan.State(|scan.entries|)
    ensures result.log == [] ==> pending == []
    ensures Stored(map[], []) == map[]
    ensures var all := if pending == [] then reports else reports + [Report(pending, scan.Outcome())];
      Reported(all) == result.log && ReportsAreDurable(all)
    ensures Stored(map[], pending) == map[] <==> pending == []
  {
    hide Judge, ScanRun.State, ScanRun.Duplicates, ScanRun.Partial, ScanRun.Valid, Midway, ReportsAreDurable, Reported;
    var n := |scan.entries|;
    assert |scan.entries| == |scan.supply| by { SameLength(scan); }
    MidwayCommit(scan, n, j, result, pending, reports);
    MidwayStop(scan, n, j, result, pending, reports);
    PendingIsLogged(scan, n, j, result, pending, reports);
    SeenIsNoDuplicate(scan);
    assert scan.Partial(j) - scan.Duplicates() + Stored(map[], pending) == scan.Outcome();
    if pending != [] {
      FinalReport(scan, j, result, pending, reports);
    }
  }

  lemma PendingIsLogged(scan: ScanRun, i: nat, j: nat, result: ScanState, pending: seq<Record>, reports: seq<Report>)
    requires Midway(scan, i, j, result, pending, reports)
    ensures result.log == [] ==> pending == []
    ensures pending == [] ==> Reported(reports) == result.log
  {
  }

  lemma FinalReport(scan: ScanRun, j: nat, result: ScanState, pending: seq<Record>, reports: seq<Report>)
    requires Midway(scan, |scan.entries|, j, result, pending, reports)
    ensures var all := reports + [Report(pending, scan.Outcome())];
      Reported(all) == result.log && (pending != [] ==> ReportsAreDurable(all))
  {
    hide Judge, ScanRun.State, ScanRun.Duplicates, ScanRun.Partial, ReportsAreDurable, Reported, Stored;
    var n := |scan.entries|;
    StagedIsSeen(scan, n, j, pending);
    SeenIsNoDuplicate(scan);
    BatchIsDurable(scan, n, j, pending);
    forall k | 0 <= k < |pending|
      ensures pending[k].id in scan.Outcome() && scan.Outcome()[pending[k].id] == pending[k]
    {
      StoredKeys(pending, pending[k].id);
    }
    ReportedMore(reports, Report(pending, scan.Outcome()));
    if pending != [] { DurableMore(reports, Report(pending, scan.Outcome())); }
  }

  lemma DurableMore(reports: seq<Report>, r: Report)
    requires ReportsAreDurable(reports) && r.records != []
    requires forall k | 0 <= k < |r.records| :: r.records[k].id in r.committed && r.committed[r.records[k].id] == r.records[k]
    ensures ReportsAreDurable(reports + [r])
  {
  }

  lemma SeenIsNoDuplicate(scan: ScanRun)
    requires |scan.entries| == |scan.supply|
    ensures scan.State(|scan.entries|).seen !! scan.Duplicates()
  {
  }

  lemma EmptyIndex(s: Setting, base: Records)
    ensures PathIndex(s, Among(base, Elements([])), map[]) && DigestIndex(s, Among(base, Elements([])), map[])
  {
    assert Among(base, Elements([])) == map[];
  }

  class Scanner {
    const s: Setting
    const batchSize: nat
    const store: RecordStore

    constructor (s: Setting, batchSize: nat, store: RecordStore)
      ensures this.s == s && this.batchSize == batchSize && this.store == store
    {
      this.s, this.batchSize, this.store := s, batchSize, store;
    }

    /** Reads every record of the root once, in listing order. */
    method BuildIndex() returns (byPath: map<Path, seq<Record>>, byDigest: map<Digest, seq<Record>>)
      requires forall id | id in store.committed :: store.committed[id].id == id
      ensures PathIndex(s, store.committed, byPath) && DigestIndex(s, store.committed, byDigest)
    {
      hide PathIndex, DigestIndex;
      var ids := store.ListIds();
      byPath, byDigest := map[], map[];
      ghost var base := store.committed;
      EmptyIndex(s, base);
      for n := 0 to |ids|
        invariant PathIndex(s, Among(base, Elements(ids[..n])), byPath)
        invariant DigestIndex(s, Among(base, Elements(ids[..n])), byDigest)
      {
        ghost var done := Among(base, Elements(ids[..n]));
        assert ids[n] in Elements(ids);
        var r := store.committed[ids[n]];
        assert r.id !in done by {
          if r.id in done { BeforeIsStrict(r.id); }
        }
        byPath, byDigest := IndexRecord(byPath, byDigest, r, done);
        ElementsAppend(ids[..n], r.id);
        assert ids[..n + 1] == ids[..n] + [r.id];
        assert Among(base, Elements(ids[..n + 1])) == done[r.id := r];
      }
      assert ids[..|ids|] == ids;
      assert Among(base, Elements(ids)) == base;
    }

    method IndexRecord(byPath: map<Path, seq<Record>>, byDigest: map<Digest, seq<Record>>, r: Record, ghost done: Records)
      returns (byPath': map<Path, seq<Record>>, byDigest': map<Digest, seq<Record>>)
      requires PathIndex(s, done, byPath) && DigestIndex(s, done, byDigest)
      requires r.id !in done && forall id | id in done :: Before(id, r.id)
      ensures PathIndex(s, done[r.id := r], byPath') && DigestIndex(s, done[r.id := r], byDigest')
    {
      byPath', byDigest' := byPath, byDigest;
      ghost var more := done[r.id := r];
      var key := RecordKey(s, r);
      if s.inRoot(key) {
        byPath' := byPath[key := ListAt(byPath, key) + [r]];
        if r.fingerprint.IsValid() {
          byDigest' := byDigest[r.fingerprint.digest := ListAt(byDigest, r.fingerprint.digest) + [r]];
        }
      }
      PathIndexGrows(s, done, byPath, r);
      DigestIndexGrows(s, done, byDigest, r);
    }

    /** The first listed record whose own file is gone and that serves nothing yet. */
    method FindMoved(candidates: seq<Record>, found: set<Path>, seen: set<Id>, ghost base: Records, ghost d: Digest)
      returns (moved: Option<Record>)
      requires Lists(base, candidates, WithDigest(s, base, d))
      ensures var ids := MoveCandidates(s, base, found, seen, d);
        if ids == {} then moved == None else moved == Some(base[First(ids)])
    {
      ghost var ids := MoveCandidates(s, base, found, seen, d);
      for k := 0 to |candidates|
        invariant forall l | 0 <= l < k :: candidates[l].id !in ids
      {
        var r := candidates[k];
        assert r.id in WithDigest(s, base, d);
        if RecordKey(s, r) !in found && r.id !in seen {
          assert IsFirst(r.id, ids) by {
            forall id | id in ids && id != r.id ensures Before(r.id, id) {
              assert id in WithDigest(s, base, d);
            }
          }
          FirstIsUnique(ids, r.id, First(ids));
          return Some(r);
        }
      }
      moved := None;
      assert forall id | id in ids :: id in WithDigest(s, base, d);
      assert ids == {};
    }

    method JudgeEntry(byPath: map<Path, seq<Record>>, byDigest: map<Digest, seq<Record>>, found: set<Path>, seen: set<Id>,
                      e: FileEntry, newId: Id, ghost base: Records) returns (v: Verdict)
      requires PathIndex(s, base, byPath) && DigestIndex(s, base, byDigest)
      ensures v == Judge(s, base, found, seen, e, newId)
      ensures forall id | (e.kind != Unknown || e.supported) && IsFirstAt(s, base, s.keyOf(e.identity.absolutePath), id)
        && base[id].id == id :: KnownIsJudged(s, base[id], e, v)
    {
      forall id | (e.kind != Unknown || e.supported) && IsFirstAt(s, base, s.keyOf(e.identity.absolutePath), id) && base[id].id == id
        ensures KnownIsJudged(s, base[id], e, Judge(s, base, found, seen, e, newId))
      {
        JudgeOfKnown(s, base, found, seen, e, newId, id);
      }
      if !Indexable(e) { return Skipped; }
      var key := Key(s, e);
      if key in byPath {
        HeadOfList(base, byPath[key], At(s, base, key));
        var existing := byPath[key][0];
        KnownIdMatches(s, base, byPath, key);
        if e.identity.LooksUnchangedFrom(existing.identity) && existing.storage == Managed {
          return Unchanged(existing.id);
        }
        if e.fingerprint.None? { return Unhashable; }
        return Updated(Reconciled(s, existing, e, e.fingerprint.value));
      }
      if e.fingerprint.None? { return Unhashable; }
      var fp := e.fingerprint.value;
      var moved := None;
      if fp.IsValid() {
        assert Lists(base, ListAt(byDigest, fp.digest), WithDigest(s, base, fp.digest));
        moved := FindMoved(ListAt(byDigest, fp.digest), found, seen, base, fp.digest);
      }
      v := if moved.Some? then Updated(Reconciled(s, moved.value, e, fp)) else Added(Reconciled(s, NewRecord(newId, e), e, fp));
    }

    /** Publishes what is staged and reports the records that became durable. */
    method CommitBatch(pending: seq<Record>, reports: seq<Report>) returns (reports': seq<Report>)
      modifies store
      ensures store.committed == old(store.committed) - old(store.removed) + old(store.staged)
      ensures store.staged == map[] && store.removed == {}
      ensures !old(store.HasStagedChanges()) ==> reports' == reports && store.commits == old(store.commits)
      ensures old(store.HasStagedChanges()) ==>
        reports' == if pending == [] then reports else reports + [Report(pending, store.committed)]
    {
      reports' := reports;
      if !store.HasStagedChanges() { return; }
      store.Commit();
      if pending != [] {
        reports' := reports + [Report(pending, store.committed)];
      }
    }

    /** Stages the removal of the listed records that serve nothing, if their path was found and read. */
    method RemoveListed(records: seq<Record>, reconciled: bool, seen: set<Id>, isCancelled: nat -> bool, polled: nat)
      returns (cancelled: bool)
      requires store.staged.Keys <= seen
      modifies store`staged, store`removed
      ensures var ids := set l | 0 <= l < |records| && reconciled && records[l].id !in seen :: records[l].id;
        !cancelled ==> store.staged == old(store.staged) && store.removed == old(store.removed) + ids
      ensures cancelled <==> exists n: nat | polled <= n < polled + |records| :: isCancelled(n)
    {
      for k := 0 to |records|
        invariant store.staged == old(store.staged)
        invariant store.removed == old(store.removed) + set l | 0 <= l < k && reconciled && records[l].id !in seen :: records[l].id
        invariant forall n: nat | polled <= n < polled + k :: !isCancelled(n)
      {
        if isCancelled(polled + k) { return true; }
        if records[k].id !in seen && reconciled {
          store.Remove(records[k].id);
        }
      }
      cancelled := false;
    }

    /** Stages the removal of old duplicates, list by list. */
    method RemoveDuplicates(byPath: map<Path, seq<Record>>, found: set<Path>, st: ScanState, isCancelled: nat -> bool,
                            polled: nat, ghost scan: ScanRun) returns (cancelled: bool)
      requires |scan.entries| == |scan.supply|
      requires PathIndex(s, scan.base, byPath) && s == scan.s
      requires found == scan.Found() && st == scan.State(|scan.entries|)
      requires store.removed == {} && store.staged.Keys <= st.seen
      modifies store`staged, store`removed
      ensures !cancelled ==> store.staged == old(store.staged) && store.removed == scan.Duplicates()
      // It asks once for each record under the root.
      ensures cancelled <==> exists n: nat | polled <= n < polled + |UnderRoot(s, scan.base)| :: isCancelled(n)
    {
      hide ScanRun.Duplicates, ScanRun.State, ScanRun.Found, FoundKeys, At, PathIndex, UnderKeys, UnderRoot, DuplicatesIn;
      var polls := polled;
      var todo := byPath.Keys;
      ghost var base, staged, all := scan.base, store.staged, scan.Duplicates();
      ghost var done: set<Path> := {};
      EveryDuplicateIsIndexed(scan, byPath);
      EveryPathIsIndexed(s, base, byPath);
      while todo != {}
        invariant todo <= byPath.Keys && done == byPath.Keys - todo
        invariant polls == polled + |UnderKeys(s, base, done)| && forall n: nat | polled <= n < polls :: !isCancelled(n)
        invariant store.staged == staged
        invariant store.removed == all - DuplicatesIn(scan, todo)
      {
        var key :| key in todo;
        var records := byPath[key];
        ghost var before := store.removed;
        OneMorePath(s, base, byPath, done, key);
        cancelled := RemoveListed(records, key in found && key !in st.failed, st.seen, isCancelled, polls);
        if cancelled { return; }
        polls := polls + |records|;
        DuplicatesFurther(scan, byPath, todo, key, before, store.removed);
        todo := todo - {key};
        done := done + {key};
      }
      assert done == byPath.Keys;
      cancelled := false;
    }

    /**
     * Scans the listed files. Whatever the batch size, a scan that is not cancelled leaves the
     * same store and reports the same records; a cancelled one leaves a prefix of it. A file of
     * another size or time is read again, and one of the same size and time is not.
     */
    method Scan(entries: seq<FileEntry>, supply: seq<Id>, isCancelled: nat -> bool)
      returns (completed: bool, result: ScanState, reports: seq<Report>)
      requires ScanRun(s, store.committed, entries, supply).Valid()
      requires !store.HasStagedChanges()
      modifies store
      ensures !store.HasStagedChanges()
      ensures var scan := ScanRun(s, old(store.committed), entries, supply);
        if completed then
          store.committed == scan.Outcome() && result == scan.State(|entries|) && Reported(reports) == result.log
        else
          exists j: nat | j <= |entries| :: store.committed == scan.Partial(j) && Reported(reports) == scan.State(j).log
      ensures completed ==> Rescanned(ScanRun(s, old(store.committed), entries, supply), store.committed)
      ensures completed ==> Tallied(ScanRun(s, old(store.committed), entries, supply), result, store.committed)
      ensures forall i | 0 <= i < |reports| ::
                reports[i].records != [] && forall k | 0 <= k < |reports[i].records| ::
                  var r := reports[i].records[k]; r.id in reports[i].committed && reports[i].committed[r.id] == r
      // It asks once for each entry and once for each record under the root, and stops only when told to.
      ensures completed <==> forall n: nat | n < |entries| + |UnderRoot(s, old(store.committed))| :: !isCancelled(n)
      // Batches are full, but for the last one of a completed scan; without a batch size there is one.
      ensures forall i | 0 <= i < |reports| && (i < |reports| - 1 || !completed) :: |reports[i].records| == batchSize
      ensures forall i | 0 <= i < |reports| && batchSize > 0 :: |reports[i].records| <= batchSize
      ensures var scan := ScanRun(s, old(store.committed), entries, supply);
        !completed ==> exists n: nat | n <= |entries| ::
          (n < |entries| ==> isCancelled(n)) && (forall m: nat | m < n :: !isCancelled(m))
          && |Reported(reports)| <= |scan.State(n).log| && (batchSize > 0 ==> |scan.State(n).log| < |Reported(reports)| + batchSize)
      ensures var scan := ScanRun(s, old(store.committed), entries, supply);
        completed && scan.State(|entries|).log == [] && scan.Duplicates() == {} ==> store.commits == old(store.commits)
    {
      hide Judge, ScanRun.Partial, ScanRun.State, ScanRun.Duplicates, PathIndex, DigestIndex, FoundKeys, Midway, Reported, Stored, Advance, RecordKey, Indexable, Rescanned, Tallied;
      ghost var scan := ScanRun(s, store.committed, entries, supply);
      var byPath, byDigest := BuildIndex();
      var found := FoundKeys(s, entries);
      var pending: seq<Record> := [];
      ghost var j: nat := 0;
      result, reports := START, [];
      MidwayStart(scan);
      for i := 0 to |entries|
        invariant j <= i && Midway(scan, i, j, result, pending, reports)
        invariant store.committed == scan.Partial(j) && store.staged == Stored(map[], pending) && store.removed == {}
        invariant result.log == [] ==> store.commits == old(store.commits)
        invariant forall m: nat | m < i :: !isCancelled(m)
        invariant FullBatches(reports, batchSize) && (batchSize > 0 ==> |pending| < batchSize)
      {
        MidwayCounts(scan, i, j, result, pending, reports);
        if isCancelled(i) {
          store.DiscardStaged();
          MidwayStop(scan, i, j, result, pending, reports);
          return false, result, reports;
        }
        var v := JudgeEntry(byPath, byDigest, found, result.seen, entries[i], supply[i], scan.base);
        MidwayStep(scan, i, j, result, pending, reports, v);
        result := Advance(result, Key(s, entries[i]), v);
        if Stages(v) {
          store.Stage(v.record);
          pending := pending + [v.record];
          if batchSize > 0 && |pending| >= batchSize {
            MidwayCommit(scan, i + 1, j, result, pending, reports);
            reports := CommitBatch(pending, reports);
            pending, j := [], i + 1;
          }
        }
      }
      MidwayStop(scan, |entries|, j, result, pending, reports);
      MidwayCounts(scan, |entries|, j, result, pending, reports);
      var cancelled := RemoveDuplicates(byPath, found, result, isCancelled, |entries|, scan);
      if cancelled {
        store.DiscardStaged();
        return false, result, reports;
      }
      FinishScan(scan, j, result, pending, reports);
      OutcomeIsRescanned(scan);
      OutcomeIsTallied(scan);
      reports := CommitBatch(pending, reports);
      completed := true;
    }
  }

  /** A run: the file of the only record has another size now, so it is read again, whatever its time. */
  method AChangedFileIsReadAgain(s: Setting, was: Record, e: FileEntry, newId: Id) returns (store: RecordStore)
    requires was.storage == Managed && s.inRoot(s.keyOf(was.identity.absolutePath))
    requires s.keyOf(e.identity.absolutePath) == s.keyOf(was.identity.absolutePath) && e.kind != Unknown && e.fingerprint.Some?
    requires e.identity.sizeBytes != was.identity.sizeBytes && newId != was.id
    ensures was.id in store.committed && BroughtUpToDate(s, was, e, store.committed[was.id])
  {
    hide *;
    store := new RecordStore(map[was.id := was]);
    var scanner := new Scanner(s, 0, store);
    ghost var scan := ScanRun(s, store.committed, [e], [newId]);
    OneFile(scan, was, e, newId);
    NothingStagedYet(store);
    var completed, result, reports := scanner.Scan([e], [newId], _ => false);
    OneFileScanned(scan, was, e, store.committed);
  }

  lemma NothingStagedYet(store: RecordStore)
    requires store.staged == map[] && store.removed == {}
    ensures !store.HasStagedChanges()
  {
  }

  lemma OneFile(scan: ScanRun, was: Record, e: FileEntry, newId: Id)
    requires scan == ScanRun(scan.s, map[was.id := was], [e], [newId]) && newId != was.id && scan.s.inRoot(scan.s.keyOf(e.identity.absolutePath))
    ensures scan.Valid()
  {
  }

  lemma OneFileScanned(scan: ScanRun, was: Record, e: FileEntry, after: Records)
    requires scan.base == map[was.id := was] && scan.entries == [e] && |scan.supply| == 1 && was.storage == Managed
    requires scan.s.keyOf(e.identity.absolutePath) == scan.s.keyOf(was.identity.absolutePath) && scan.s.inRoot(scan.s.keyOf(e.identity.absolutePath))
    requires e.kind != Unknown && e.fingerprint.Some? && e.identity.sizeBytes != was.identity.sizeBytes
    requires Rescanned(scan, after)
    ensures was.id in after && BroughtUpToDate(scan.s, was, e, after[was.id])
  {
    hide BroughtUpToDate;
    assert scan.entries[0] == e && scan.base[was.id] == was;
    assert FileScanned(scan, 0, after);
    assert IsFirstAt(scan.s, scan.base, scan.s.keyOf(e.identity.absolutePath), was.id);
  }

  lemma AtGrows(s: Setting, done: Records, r: Record)
    requires r.id !in done
    ensures var key := RecordKey(s, r);
      forall k :: At(s, done[r.id := r], k) == if s.inRoot(key) && k == key then At(s, done, k) + {r.id} else At(s, done, k)
  {
    hide RecordKey;
  }

  lemma PathIndexGrows(s: Setting, done: Records, byPath: map<Path, seq<Record>>, r: Record)
    requires PathIndex(s, done, byPath) && r.id !in done && forall id | id in done :: Before(id, r.id)
    ensures var key := RecordKey(s, r);
      PathIndex(s, done[r.id := r], if s.inRoot(key) then byPath[key := ListAt(byPath, key) + [r]] else byPath)
  {
    hide RecordKey, Before, Lists;
    var key, more := RecordKey(s, r), done[r.id := r];
    AtGrows(s, done, r);
    hide At;
    NothingListed(done);
    forall k | k in byPath ensures Lists(more, byPath[k], At(s, done, k)) {
      SameList(done, more, byPath[k], At(s, done, k), r);
    }
    assert Lists(done, ListAt(byPath, key), At(s, done, key));
    Appended(done, more, ListAt(byPath, key), At(s, done, key), r);
  }

  lemma DigestIndexGrows(s: Setting, done: Records, byDigest: map<Digest, seq<Record>>, r: Record)
    requires DigestIndex(s, done, byDigest) && r.id !in done && forall id | id in done :: Before(id, r.id)
    ensures var d := r.fingerprint.digest;
      DigestIndex(s, done[r.id := r],
                  if s.inRoot(RecordKey(s, r)) && r.fingerprint.IsValid() then byDigest[d := ListAt(byDigest, d) + [r]] else byDigest)
  {
    hide RecordKey, Before, Lists;
    var d, more := r.fingerprint.digest, done[r.id := r];
    NothingListed(done);
    var indexed := s.inRoot(RecordKey(s, r)) && r.fingerprint.IsValid();
    forall k
      ensures WithDigest(s, more, k) == if indexed && k == d then WithDigest(s, done, k) + {r.id} else WithDigest(s, done, k)
    {
    }
    forall k | k in byDigest ensures Lists(more, byDigest[k], WithDigest(s, done, k)) {
      SameList(done, more, byDigest[k], WithDigest(s, done, k), r);
    }
    assert Lists(done, ListAt(byDigest, d), WithDigest(s, done, d));
    Appended(done, more, ListAt(byDigest, d), WithDigest(s, done, d), r);
  }
}
