/** Edits held in memory until a save publishes all of them, or none, as one revision. */
module MetadataEdits {
  import opened Media
  import opened StagingLaws
  import opened CommitLaws
  import opened LoreStore
  import opened StoreRuns

  datatype Edit = Edit(original: Record, edited: Record) {
    predicate ChangesMetadata() { edited.metadata != original.metadata }
  }

  /** The embedded-metadata tool: what it writes, and for which files. */
  datatype Writer = Writer(write: (Bytes, Metadata) -> Bytes, supports: Path -> bool)

  datatype SaveOutcome =
    | Saved
    | Refused           // nothing to save, or other changes are staged: nothing was touched
    | NotSaved(restored: bool)    // nothing was published
    | FlushLost(restored: bool)   // the revision holds every edit, but the save reports failure
    | Killed

  // ----- what a save means -----

  function ChangedPaths(edits: map<Id, Edit>): set<Path> {
    set id | id in edits && edits[id].ChangesMetadata() :: edits[id].original.managedPath
  }

  /** The metadata to embed, by original. */
  ghost function Writes(edits: map<Id, Edit>): map<Path, Metadata> {
    map p | p in ChangedPaths(edits) ::
      var id :| id in edits && edits[id].ChangesMetadata() && edits[id].original.managedPath == p;
      edits[id].edited.metadata
  }

  function Rewritten(w: Writer, files: map<Path, Bytes>, writes: map<Path, Metadata>): map<Path, Bytes> {
    map p | p in files :: if p in writes then w.write(files[p], writes[p]) else files[p]
  }

  /** The record a save commits: a rewritten original gets the fingerprint of its new bytes. */
  function FinalRecord(env: Env, w: Writer, tree: Tree, e: Edit): Record {
    if e.ChangesMetadata() && e.original.managedPath in tree.originals then
      e.edited.(fingerprint := Fingerprint("sha256", env.hash(w.write(tree.originals[e.original.managedPath], e.edited.metadata))))
    else
      e.edited
  }

  /** The edit of the record stored in file `f`. */
  predicate EditedAt(tree: Tree, edits: map<Id, Edit>, f: FileName) {
    ManagedAt(tree.records, f) && tree.records[f].id in edits
  }

  function FinalRecords(env: Env, w: Writer, tree: Tree, edits: map<Id, Edit>, ids: set<Id>): map<FileName, Record> {
    map f | f in tree.records && EditedAt(tree, edits, f) && tree.records[f].id in ids ::
      FinalRecord(env, w, tree, edits[tree.records[f].id])
  }

  /** These records say what the edits say, with the fingerprints of what was written, and what they said before. */
  ghost predicate SaysWhat(env: Env, w: Writer, tree: Tree, edits: map<Id, Edit>, records: map<FileName, Record>) {
    && records.Keys == tree.records.Keys
    && (forall f | f in tree.records && tree.records[f].id !in edits :: records[f] == tree.records[f])
    && forall id | id in edits :: var e, f := edits[id], env.nameOf(id);
         && f in records && e.original.managedPath in tree.originals
         && records[f] == if e.edited.metadata == e.original.metadata then e.edited
              else e.edited.(fingerprint := Fingerprint("sha256", env.hash(w.write(tree.originals[e.original.managedPath], e.edited.metadata))))
  }

  lemma SavedTreeSays(env: Env, w: Writer, index: Tree, tree: Tree, edits: map<Id, Edit>)
    requires Batch(env, w, tree, edits)
    ensures SaysWhat(env, w, tree, edits, SavedTree(env, w, index, tree, edits).records)
  {
    hide Orderly, Writes, Refingerprints;
    forall id | id in edits
      ensures ValidEdit(id, edits[id]) && Current(env, w, tree, edits[id])
      ensures env.nameOf(id) in FinalRecords(env, w, tree, edits, edits.Keys)
    {
      EditIsStaged(env, w, tree, edits, id);
    }
  }

  /** Some edit ends in another fingerprint than it started from. */
  predicate Refingerprints(env: Env, w: Writer, tree: Tree, edits: map<Id, Edit>) {
    exists id | id in edits :: FinalRecord(env, w, tree, edits[id]).fingerprint != edits[id].original.fingerprint
  }

  /**
   * The revision a save publishes from the checkout `tree`. The originals of the checkout become
   * part of it only if some original got a new fingerprint; otherwise those LORE holds stay.
   */
  ghost function SavedTree(env: Env, w: Writer, index: Tree, tree: Tree, edits: map<Id, Edit>): Tree {
    Tree(tree.records + FinalRecords(env, w, tree, edits, edits.Keys),
         if Refingerprints(env, w, tree, edits) then Rewritten(w, tree.originals, Writes(edits)) else index.originals)
  }

  /** The edit still describes the committed record and its untouched original. */
  predicate Current(env: Env, w: Writer, tree: Tree, e: Edit) {
    var name := env.nameOf(e.original.id);
    && name in tree.records && tree.records[name] == e.original
    && env.ValidOriginal(e.original.managedPath)
    && FileMatches(env, tree.originals, e.original.managedPath, e.original.fingerprint.digest)
    && (e.ChangesMetadata() ==> w.supports(e.original.managedPath))
  }

  ghost predicate AllCurrent(env: Env, w: Writer, tree: Tree, edits: map<Id, Edit>, ids: set<Id>) {
    forall id | id in ids :: id in edits && Current(env, w, tree, edits[id])
  }

  /**
   * When a batch can be saved: every edit's record is still the one it started from, its original is
   * in a valid place and hashes to its fingerprint, and what is to be written can be written.
   */
  ghost predicate Savable(env: Env, w: Writer, tree: Tree, edits: map<Id, Edit>) {
    forall id | id in edits :: var r := edits[id].original;
      && env.nameOf(id) in tree.records && tree.records[env.nameOf(id)] == r
      && "originals/" <= r.managedPath && env.inside(r.managedPath)
      && r.managedPath in tree.originals && env.hash(tree.originals[r.managedPath]) == r.fingerprint.digest
      && (edits[id].edited.metadata != r.metadata ==> w.supports(r.managedPath))
  }

  lemma AllCurrentExactlyWhen(env: Env, w: Writer, tree: Tree, edits: map<Id, Edit>)
    requires ValidEdits(edits)
    ensures AllCurrent(env, w, tree, edits, edits.Keys) <==> Savable(env, w, tree, edits)
  {
    forall id | id in edits ensures edits[id].original.id == id {
      assert ValidEdit(id, edits[id]);
    }
  }

  /** An edit keeps the identity, location and storage of its record. */
  predicate ValidEdit(id: Id, e: Edit) {
    && id != "" && e.original.id == id && e.edited.id == id
    && e.original.storage == Managed && e.edited.storage == Managed
    && e.edited.managedPath == e.original.managedPath && e.edited.identity == e.original.identity
    && (!e.ChangesMetadata() ==> e.edited.fingerprint == e.original.fingerprint)
  }

  ghost predicate ValidEdits(edits: map<Id, Edit>) {
    forall id | id in edits :: ValidEdit(id, edits[id])
  }

  /** Every edit is still held; only a fingerprint that the next save recomputes may differ. */
  ghost predicate Held(before: map<Id, Edit>, after: map<Id, Edit>) {
    && after.Keys == before.Keys
    && forall id | id in before ::
         && after[id].original == before[id].original
         && after[id].edited == before[id].edited.(fingerprint := after[id].edited.fingerprint)
         && (!before[id].ChangesMetadata() ==> after[id] == before[id])
  }

  /** Records stand in their files, and no two of them share an original. */
  ghost predicate Orderly(env: Env, tree: Tree) {
    WellFormed(env, tree, EMPTY_STAGING)
  }

  ghost predicate Batch(env: Env, w: Writer, tree: Tree, edits: map<Id, Edit>) {
    Orderly(env, tree) && ValidEdits(edits) && AllCurrent(env, w, tree, edits, edits.Keys)
  }

  /** Two current edits of one orderly tree never share an original. */
  lemma DistinctPaths(env: Env, w: Writer, tree: Tree, edits: map<Id, Edit>, i: Id, j: Id)
    requires Orderly(env, tree) && ValidEdits(edits)
    requires i in edits && j in edits && Current(env, w, tree, edits[i]) && Current(env, w, tree, edits[j])
    requires edits[i].original.managedPath == edits[j].original.managedPath
    ensures i == j
  {
    assert ValidEdit(i, edits[i]) && ValidEdit(j, edits[j]);
    assert ManagedAt(tree.records, env.nameOf(i)) && ManagedAt(tree.records, env.nameOf(j));
  }

  lemma WriteAt(env: Env, w: Writer, tree: Tree, edits: map<Id, Edit>, id: Id)
    requires Batch(env, w, tree, edits)
    requires id in edits && edits[id].ChangesMetadata()
    ensures var p := edits[id].original.managedPath;
      p in tree.originals && p in Writes(edits) && Writes(edits)[p] == edits[id].edited.metadata
  {
    var p := edits[id].original.managedPath;
    assert Current(env, w, tree, edits[id]);
    forall i | i in edits && edits[i].ChangesMetadata() && edits[i].original.managedPath == p
      ensures i == id
    {
      DistinctPaths(env, w, tree, edits, i, id);
    }
  }

  lemma WriteComesFromEdit(edits: map<Id, Edit>, p: Path) returns (id: Id)
    requires p in Writes(edits)
    ensures id in edits && edits[id].ChangesMetadata() && edits[id].original.managedPath == p
  {
    id :| id in edits && edits[id].ChangesMetadata() && edits[id].original.managedPath == p;
  }

  // ----- a retry saves the same -----

  lemma HeldStaysABatch(env: Env, w: Writer, tree: Tree, before: map<Id, Edit>, after: map<Id, Edit>)
    requires Batch(env, w, tree, before) && Held(before, after)
    ensures Batch(env, w, tree, after)
  {
    hide Orderly;
    forall id | id in after
      ensures ValidEdit(id, after[id]) && Current(env, w, tree, after[id])
    {
      assert ValidEdit(id, before[id]) && Current(env, w, tree, before[id]);
    }
  }

  /** A retry commits what the first attempt would have committed. */
  lemma RetryCommitsTheSame(env: Env, w: Writer, index: Tree, tree: Tree, before: map<Id, Edit>, after: map<Id, Edit>)
    requires Batch(env, w, tree, before) && Held(before, after)
    ensures Batch(env, w, tree, after)
    ensures SavedTree(env, w, index, tree, after) == SavedTree(env, w, index, tree, before)
  {
    hide Batch, Held, FinalRecords, Writes, Refingerprints;
    HeldStaysABatch(env, w, tree, before, after);
    HeldFinalRecords(env, w, tree, before, after);
    HeldWrites(env, w, tree, before, after);
    HeldRefingerprints(env, w, tree, before, after);
  }

  lemma HeldRefingerprints(env: Env, w: Writer, tree: Tree, before: map<Id, Edit>, after: map<Id, Edit>)
    requires Held(before, after) && Batch(env, w, tree, before)
    ensures Refingerprints(env, w, tree, after) == Refingerprints(env, w, tree, before)
  {
    hide Orderly, FinalRecord, ValidEdits;
    forall id | id in before
      ensures FinalRecord(env, w, tree, after[id]) == FinalRecord(env, w, tree, before[id])
    {
      FinalRecordHolds(env, w, tree, before[id], after[id]);
    }
  }

  lemma HeldFinalRecords(env: Env, w: Writer, tree: Tree, before: map<Id, Edit>, after: map<Id, Edit>)
    requires Held(before, after) && Batch(env, w, tree, before)
    ensures FinalRecords(env, w, tree, after, after.Keys) == FinalRecords(env, w, tree, before, before.Keys)
  {
    hide Orderly, FinalRecord, ValidEdits;
    forall f | f in tree.records && EditedAt(tree, before, f)
      ensures FinalRecord(env, w, tree, after[tree.records[f].id]) == FinalRecord(env, w, tree, before[tree.records[f].id])
    {
      FinalRecordHolds(env, w, tree, before[tree.records[f].id], after[tree.records[f].id]);
    }
  }

  /** Rewriting the fingerprint of an edit whose original is at hand does not change what it ends in. */
  lemma FinalRecordHolds(env: Env, w: Writer, tree: Tree, before: Edit, after: Edit)
    requires Current(env, w, tree, before)
    requires after.original == before.original && after.edited == before.edited.(fingerprint := after.edited.fingerprint)
    requires !before.ChangesMetadata() ==> after == before
    ensures FinalRecord(env, w, tree, after) == FinalRecord(env, w, tree, before)
  {
  }

  lemma HeldWrites(env: Env, w: Writer, tree: Tree, before: map<Id, Edit>, after: map<Id, Edit>)
    requires Held(before, after) && Batch(env, w, tree, before) && Batch(env, w, tree, after)
    ensures Writes(after) == Writes(before)
  {
    hide Batch;
    assert ChangedPaths(after) == ChangedPaths(before);
    forall p | p in ChangedPaths(before)
      ensures Writes(after)[p] == Writes(before)[p]
    {
      var id := WriteComesFromEdit(before, p);
      WriteAt(env, w, tree, before, id);
      WriteAt(env, w, tree, after, id);
    }
  }

  // ----- the tree a finished batch hands to the commit -----

  /** The checkout after the writer ran, and the staging area after every edit was staged. */
  ghost predicate Prepared(env: Env, w: Writer, tree: Tree, edits: map<Id, Edit>, checkout: Tree, st: Staging) {
    && checkout == Tree(tree.records, Rewritten(w, tree.originals, Writes(edits)))
    && st == Staging(FinalRecords(env, w, tree, edits, edits.Keys), {}, map[])
  }

  lemma FinalRecordAt(env: Env, w: Writer, tree: Tree, edits: map<Id, Edit>, ids: set<Id>, f: FileName)
    requires Batch(env, w, tree, edits)
    requires f in FinalRecords(env, w, tree, edits, ids)
    ensures var id := tree.records[f].id; var r := FinalRecords(env, w, tree, edits, ids)[f];
      && id in edits && edits[id].original == tree.records[f] && env.nameOf(id) == f
      && r.id == id && r.storage == Managed && r.managedPath == tree.records[f].managedPath
      && r.managedPath in tree.originals && ManagedAt(tree.records, f)
      && r == FinalRecord(env, w, tree, edits[id])
  {
    var id := tree.records[f].id;
    assert ValidEdit(id, edits[id]) && Current(env, w, tree, edits[id]);
    assert env.nameOf(tree.records[f].id) == f;
  }

  lemma PreparedIsWellFormed(env: Env, w: Writer, tree: Tree, edits: map<Id, Edit>, checkout: Tree, st: Staging)
    requires Batch(env, w, tree, edits) && Prepared(env, w, tree, edits, checkout, st)
    ensures WellFormed(env, checkout, st)
  {
    hide FinalRecord, FinalRecords, Rewritten, ValidEdit, Current;
    forall f | f in st.records
      ensures ManagedAt(tree.records, f) && st.records[f].managedPath == tree.records[f].managedPath
      ensures env.nameOf(st.records[f].id) == f
    {
      FinalRecordAt(env, w, tree, edits, edits.Keys, f);
    }
  }

  /** Saving removes nothing and moves nothing. */
  lemma PreparedIsWorkable(env: Env, w: Writer, tree: Tree, edits: map<Id, Edit>, checkout: Tree, st: Staging)
    requires Batch(env, w, tree, edits) && Prepared(env, w, tree, edits, checkout, st)
    ensures Workable(env, checkout, Cleaned(st))
  {
    hide Batch, FinalRecords, Rewritten, WellFormed, Repaths;
    PreparedIsWellFormed(env, w, tree, edits, checkout, st);
    assert Cleaned(st) == st;
    forall f | f in st.records ensures !Repaths(env, checkout.records - st.tombstones, st, f) {
      FinalRecordAt(env, w, tree, edits, edits.Keys, f);
      StaysInPlace(env, checkout.records - st.tombstones, st, f);
    }
  }

  lemma StaysInPlace(env: Env, records: map<FileName, Record>, st: Staging, f: FileName)
    requires f in st.records && f in records && env.nameOf(st.records[f].id) == f && st.records[f].managedPath == records[f].managedPath
    ensures !Repaths(env, records, st, f)
  {
  }

  lemma EditIsStaged(env: Env, w: Writer, tree: Tree, edits: map<Id, Edit>, id: Id)
    requires id in edits && ValidEdit(id, edits[id]) && Current(env, w, tree, edits[id])
    ensures env.nameOf(id) in FinalRecords(env, w, tree, edits, edits.Keys)
  {
  }

  lemma PreparedIsAccepted(env: Env, w: Writer, tree: Tree, edits: map<Id, Edit>, checkout: Tree, st: Staging)
    requires Batch(env, w, tree, edits) && Prepared(env, w, tree, edits, checkout, st)
    requires edits != map[]
    ensures Accepts(env, checkout, Cleaned(st))
  {
    hide Orderly, Writes;
    var some :| some in edits;
    assert ValidEdit(some, edits[some]) && Current(env, w, tree, edits[some]);
    EditIsStaged(env, w, tree, edits, some);
    forall f | f in st.records
      ensures RecordValid(env, checkout, Cleaned(st), f)
    {
      FinalRecordAt(env, w, tree, edits, edits.Keys, f);
      var id := tree.records[f].id;
      assert Current(env, w, tree, edits[id]) && ValidEdit(id, edits[id]);
      if edits[id].ChangesMetadata() {
        WriteAt(env, w, tree, edits, id);
      }
    }
  }

  lemma PreparedCommitsTheSave(env: Env, w: Writer, index: Tree, tree: Tree, edits: map<Id, Edit>, checkout: Tree, st: Staging)
    requires Prepared(env, w, tree, edits, checkout, st)
    requires Batch(env, w, tree, edits)
    ensures Published(env, index, checkout, Cleaned(st)) == SavedTree(env, w, index, tree, edits)
  {
    hide Batch, FinalRecord, FinalRecords, Rewritten, WellFormed, Applied, InPlaceEdit, Refingerprints;
    forall f | f in st.records
      ensures !Repaths(env, checkout.records - st.tombstones, st, f)
    {
      FinalRecordAt(env, w, tree, edits, edits.Keys, f);
    }
    RecordsOnlyApplied(env, checkout, st);
    assert Cleaned(st) == st;
    InPlaceEditsRefingerprint(env, w, tree, edits, checkout, st);
  }

  /** The edits the commit finds made in place are those that changed a fingerprint. */
  lemma InPlaceEditsRefingerprint(env: Env, w: Writer, tree: Tree, edits: map<Id, Edit>, checkout: Tree, st: Staging)
    requires Prepared(env, w, tree, edits, checkout, st)
    requires Batch(env, w, tree, edits)
    ensures (exists f | f in st.records :: InPlaceEdit(env, checkout, st, f)) <==> Refingerprints(env, w, tree, edits)
  {
    hide Orderly, FinalRecord, FinalRecords, Writes, ValidEdit, Current;
    forall f | f in st.records
      ensures f in tree.records
      ensures InPlaceEdit(env, checkout, st, f) <==> st.records[f].fingerprint != tree.records[f].fingerprint
    {
      FinalRecordAt(env, w, tree, edits, edits.Keys, f);
      PathIsNamed(env, w, tree, edits, tree.records[f].id);
    }
    if Refingerprints(env, w, tree, edits) {
      var id :| id in edits && FinalRecord(env, w, tree, edits[id]).fingerprint != edits[id].original.fingerprint;
      PathIsNamed(env, w, tree, edits, id);
      EditIsStaged(env, w, tree, edits, id);
      FinalRecordAt(env, w, tree, edits, edits.Keys, env.nameOf(id));
      assert InPlaceEdit(env, checkout, st, env.nameOf(id));
    } else {
      forall f | f in st.records
        ensures !InPlaceEdit(env, checkout, st, f)
      {
        FinalRecordAt(env, w, tree, edits, edits.Keys, f);
      }
    }
  }

  lemma PathIsNamed(env: Env, w: Writer, tree: Tree, edits: map<Id, Edit>, id: Id)
    requires Batch(env, w, tree, edits) && id in edits
    ensures edits[id].original.managedPath != "" && ValidEdit(id, edits[id]) && Current(env, w, tree, edits[id])
    ensures env.nameOf(id) in tree.records && tree.records[env.nameOf(id)] == edits[id].original && edits[id].original.id == id
  {
    assert ValidEdit(id, edits[id]) && Current(env, w, tree, edits[id]);
  }

  /** Staged records that bring no originals and change no paths leave the originals alone. */
  lemma NothingPublished(env: Env, base: Tree, st: Staging)
    requires st.originals == map[]
    ensures PublishOriginals(env, base, st, ExpectedDigests(st)) == base
  {
    assert (set p | p in st.originals && Publishable(st, p)) == {};
  }

  lemma RecordsOnlyApplied(env: Env, base: Tree, st: Staging)
    requires st.tombstones == {} && st.originals == map[]
    requires forall f | f in st.records :: !Repaths(env, base.records - st.tombstones, st, f)
    ensures Applied(env, base, Cleaned(st)) == Tree(base.records + st.records, base.originals)
  {
    assert Cleaned(st) == st;
    NothingIsBuried(base);
    NothingRepathed(env, base.records, st);
    NothingPublished(env, base, st);
  }

  // ----- one more edit -----

  /** The edits that leave the embedded metadata alone. */
  function Unwritten(edits: map<Id, Edit>): set<Id> {
    set id | id in edits && !edits[id].ChangesMetadata()
  }

  lemma OneMoreFinalRecord(env: Env, w: Writer, tree: Tree, edits: map<Id, Edit>, ids: set<Id>, id: Id)
    requires Named(env, tree.records) && ValidEdits(edits)
    requires id in edits && Current(env, w, tree, edits[id])
    ensures FinalRecords(env, w, tree, edits, ids + {id})
         == FinalRecords(env, w, tree, edits, ids)[env.nameOf(id) := FinalRecord(env, w, tree, edits[id])]
  {
    assert ValidEdit(id, edits[id]);
    forall f | EditedAt(tree, edits, f) && tree.records[f].id == id
      ensures f == env.nameOf(id)
    {
    }
  }

  function Only(writes: map<Path, Metadata>, paths: set<Path>): map<Path, Metadata> {
    map q | q in writes && q in paths :: writes[q]
  }

  lemma NothingRewritten(w: Writer, files: map<Path, Bytes>, writes: map<Path, Metadata>)
    ensures Rewritten(w, files, Only(writes, {})) == files
  {
  }

  lemma OneMoreRewrite(w: Writer, files: map<Path, Bytes>, writes: map<Path, Metadata>, done: set<Path>, p: Path)
    requires p in writes && p !in done && p in files
    ensures var before := Rewritten(w, files, Only(writes, done));
      && p in before
      && Rewritten(w, files, Only(writes, done + {p})) == before[p := w.write(before[p], writes[p])]
  {
  }

  /** The writes collected from a set of edits. */
  ghost predicate WritesFrom(edits: map<Id, Edit>, ids: set<Id>, writes: map<Path, Metadata>) {
    && (forall id | id in ids && id in edits && edits[id].ChangesMetadata() ::
          edits[id].original.managedPath in writes && writes[edits[id].original.managedPath] == edits[id].edited.metadata)
    && (forall p | p in writes :: exists id | id in ids :: id in edits && edits[id].ChangesMetadata() && edits[id].original.managedPath == p)
  }

  lemma WritesAreDetermined(env: Env, w: Writer, tree: Tree, edits: map<Id, Edit>, writes: map<Path, Metadata>)
    requires Batch(env, w, tree, edits) && WritesFrom(edits, edits.Keys, writes)
    ensures writes == Writes(edits)
  {
    hide Batch;
    assert writes.Keys == ChangedPaths(edits);
    forall p | p in writes
      ensures writes[p] == Writes(edits)[p]
    {
      var id := WriteComesFromEdit(edits, p);
      WriteAt(env, w, tree, edits, id);
    }
  }

  lemma OneMoreWrite(env: Env, w: Writer, tree: Tree, edits: map<Id, Edit>, ids: set<Id>, id: Id, writes: map<Path, Metadata>)
    requires Orderly(env, tree) && ValidEdits(edits) && AllCurrent(env, w, tree, edits, ids + {id})
    requires WritesFrom(edits, ids, writes) && id in edits && id !in ids
    ensures var e := edits[id];
      WritesFrom(edits, ids + {id}, if e.ChangesMetadata() then writes[e.original.managedPath := e.edited.metadata] else writes)
  {
    hide Orderly;
    forall i | i in ids && i in edits && edits[i].original.managedPath == edits[id].original.managedPath
      ensures false
    {
      DistinctPaths(env, w, tree, edits, i, id);
    }
  }

  // ----- the service -----

  /** A save succeeds only if all its steps worked, but for the last one, which clears the staging area. */
  ghost predicate RanSave(plan: nat -> Fault, from: nat, to: nat, outcome: SaveOutcome) {
    match outcome
    case Saved => from < to && Ran(plan, from, to - 1, Done) && plan(to - 1) != Crash
    case Killed => Ran(plan, from, to, Died)
    case _ => Ran(plan, from, to, Failed)
  }

  lemma RanToSave(plan: nat -> Fault, from: nat, mid: nat, to: nat, p: Progress, outcome: SaveOutcome)
    requires Ran(plan, from, mid, p)
    ensures p == Died && mid == to ==> RanSave(plan, from, to, Killed)
    ensures p != Died && outcome != Saved && RanSave(plan, mid, to, outcome) ==> RanSave(plan, from, to, outcome)
    ensures p == Done && RanSave(plan, mid, to, outcome) ==> RanSave(plan, from, to, outcome)
    ensures p != Died && mid == to && outcome != Saved && outcome != Killed ==> RanSave(plan, from, to, outcome)
    ensures forall restored :: p != Died && outcome == NotSaved(restored) && RanSave(plan, mid, to, outcome) ==>
      RanSave(plan, from, to, FlushLost(restored))
  {
  }

  lemma RanCommitToSave(plan: nat -> Fault, from: nat, to: nat, result: CommitOutcome)
    requires RanCommit(plan, from, to, result)
    ensures result == Committed ==> RanSave(plan, from, to, Saved)
    ensures result == Crashed ==> RanSave(plan, from, to, Killed)
    ensures result != Committed && result != Crashed ==> Ran(plan, from, to, Failed)
  {
  }

  class MetadataEditService {
    const store: LoreDurableStore
    const writer: Writer
    const normalize: Metadata -> Metadata
    var edits: map<Id, Edit>

    constructor (store: LoreDurableStore, writer: Writer, normalize: Metadata -> Metadata)
      ensures this.store == store && this.writer == writer && this.normalize == normalize && edits == map[]
    {
      this.store, this.writer, this.normalize := store, writer, normalize;
      edits := map[];
    }

    /** Holds an edit; a later edit of the same record starts from the original of the first. */
    method Stage(id: Id, metadata: Metadata, recipe: Recipe) returns (ok: bool)
      requires ValidEdits(edits)
      requires store.env.nameOf(id) in store.checkout.records ==> store.checkout.records[store.env.nameOf(id)].id == id != ""
      modifies `edits
      ensures ValidEdits(edits)
      ensures !ok ==> edits == old(edits)
      ensures ok ==> id in edits && edits == old(edits)[id := edits[id]]
      ensures ok ==> edits[id].edited.metadata == normalize(metadata) && edits[id].edited.recipe.operations == recipe.operations
      ensures ok && recipe != edits[id].original.recipe ==> edits[id].edited.recipe.revision == edits[id].original.recipe.revision + 1
      ensures ok && recipe == edits[id].original.recipe ==> edits[id].edited.recipe == recipe
      ensures ok ==> edits[id].edited == edits[id].original.(metadata := normalize(metadata), recipe := edits[id].edited.recipe)
      ensures id !in old(edits) && store.isOpen && store.env.nameOf(id) in store.checkout.records ==>
        (ok <==> store.checkout.records[store.env.nameOf(id)].storage == Managed)
      ensures ok && id in old(edits) ==> edits[id].original == old(edits)[id].original
      ensures ok && id !in old(edits) ==>
        store.isOpen && store.env.nameOf(id) in store.checkout.records && store.checkout.records[store.env.nameOf(id)] == edits[id].original
      ensures id in old(edits) ==> ok
    {
      var original;
      if id in edits {
        original := edits[id].original;
        assert ValidEdit(id, edits[id]);
      } else {
        var name := store.env.nameOf(id);
        if !store.isOpen || name !in store.checkout.records { return false; }
        original := store.checkout.records[name];
      }
      if original.storage != Managed { return false; }
      var revised := if recipe != original.recipe then recipe.(revision := original.recipe.revision + 1) else recipe;
      edits := edits[id := Edit(original, original.(metadata := normalize(metadata), recipe := revised))];
      ok := true;
    }

    /** Drops the held edits, after whatever is staged in the store. */
    method Cancel() returns (ok: bool)
      modifies `edits, store`clock, store`staging, store`checkout, store`index
      ensures ok ==> edits == map[] && (store.isOpen ==> store.staging == EMPTY_STAGING)
      ensures !ok ==> edits == old(edits)
      ensures !store.isOpen || old(store.staging) == EMPTY_STAGING ==> ok && unchanged(store)
      ensures old(store.Healthy()) ==> ok
    {
      if store.isOpen && store.staging != EMPTY_STAGING {
        var p := store.DiscardStaged();
        if p != Done { return false; }
      }
      edits := map[];
      ok := true;
    }

    /** Restores the checkout and clears the staging area after a failed save. */
    method RestoreAfterFailedSave() returns (outcome: SaveOutcome)
      modifies store`clock, store`checkout, store`index, store`staging
      ensures outcome == NotSaved(true) ==> store.checkout == store.committed == store.index && store.staging == EMPTY_STAGING
      ensures outcome.NotSaved? || outcome.Killed?
      ensures RanSave(store.plan, old(store.clock), store.clock, outcome)
      ensures old(store.Healthy()) && store.isOpen ==> store.Healthy() && outcome == NotSaved(true)
    {
      var p := store.Restore();
      if p == Died { return Killed; }
      var q := store.DiscardStaged();
      outcome := if q == Died then Killed else NotSaved(p == Done && q == Done);
    }

    /** Discards what was staged; its result is not looked at, only reported here. */
    method Discard(p: Progress) returns (outcome: SaveOutcome)
      modifies store`clock, store`checkout, store`index, store`staging
      ensures outcome == NotSaved(true) ==> store.checkout == store.committed == store.index && store.staging == EMPTY_STAGING
      ensures outcome.NotSaved? || outcome.Killed?
      ensures !store.isOpen && p != Died ==> outcome == NotSaved(false)
      ensures if p == Died then outcome == Killed && store.clock == old(store.clock)
              else RanSave(store.plan, old(store.clock), store.clock, outcome)
      ensures old(store.Healthy()) && store.isOpen && p != Died ==> store.Healthy() && outcome == NotSaved(true)
    {
      if p == Died { return Killed; }
      var q := store.DiscardStaged();
      outcome := if q == Died then Killed else NotSaved(q == Done);
    }

    method CheckEdit(id: Id) returns (p: Progress)
      requires store.isOpen && id in edits && ValidEdit(id, edits[id])
      modifies store`clock, store`staging
      ensures p == Done ==> Current(store.env, writer, store.checkout, edits[id])
      ensures Ran(store.plan, old(store.clock), store.clock, p)
      ensures p == Done && edits[id].ChangesMetadata() ==> store.staging == old(store.staging)
      ensures p == Done && !edits[id].ChangesMetadata() ==> store.staging == store.WithRecord(old(store.staging), edits[id].edited)
      ensures old(store.Healthy()) ==> store.Healthy() && p != Died && (p == Done <==> Current(store.env, writer, store.checkout, edits[id]))
    {
      var e := edits[id];
      var name := store.env.nameOf(e.original.id);
      if name !in store.checkout.records || store.checkout.records[name] != e.original { return Failed; }
      if !store.env.ValidOriginal(e.original.managedPath) { return Failed; }
      if !FileMatches(store.env, store.checkout.originals, e.original.managedPath, e.original.fingerprint.digest) { return Failed; }
      if !e.ChangesMetadata() {
        p := store.Stage(e.edited);
      } else {
        p := if writer.supports(e.original.managedPath) then Done else Failed;
      }
    }

    /** Checks each edit against the store; stages those that need no write, collects the others. */
    method CheckEdits() returns (p: Progress, writes: map<Path, Metadata>)
      requires store.isOpen && store.staging == EMPTY_STAGING && ValidEdits(edits) && Orderly(store.env, store.checkout)
      modifies store`clock, store`staging
      ensures p == Done ==>
        && Batch(store.env, writer, store.checkout, edits)
        && store.staging == Staging(FinalRecords(store.env, writer, store.checkout, edits, Unwritten(edits)), {}, map[])
        && writes == Writes(edits)
      ensures Ran(store.plan, old(store.clock), store.clock, p)
      ensures old(store.Healthy()) ==> store.Healthy() && p != Died && (p == Done <==> AllCurrent(store.env, writer, store.checkout, edits, edits.Keys))
    {
      hide FinalRecords, FinalRecord, Orderly, Current, ValidEdit, Writes;
      ghost var env, w, tree := store.env, writer, store.checkout;
      var todo := edits.Keys;
      ghost var done := {};
      p, writes := Done, map[];
      NoFinalRecords(env, w, tree, edits);
      assert Named(env, tree.records) by { OrderlyIsNamed(env, tree); }
      while todo != {}
        invariant todo == edits.Keys - done && done <= edits.Keys
        invariant p == Done && Ran(store.plan, old(store.clock), store.clock, Done)
        invariant AllCurrent(env, w, tree, edits, done)
        invariant WritesFrom(edits, done, writes)
        invariant store.staging == Staging(FinalRecords(env, w, tree, edits, done * Unwritten(edits)), {}, map[])
        invariant old(store.Healthy()) ==> store.Healthy()
        decreases todo
      {
        var id :| id in todo;
        todo := todo - {id};
        p := CheckEdit(id);
        if p != Done { return; }
        OneMoreWrite(env, w, tree, edits, done, id, writes);
        if edits[id].ChangesMetadata() {
          writes := writes[edits[id].original.managedPath := edits[id].edited.metadata];
          assert (done + {id}) * Unwritten(edits) == done * Unwritten(edits);
        } else {
          OneMoreFinalRecord(env, w, tree, edits, done * Unwritten(edits), id);
          UnwrittenFinalRecord(env, w, tree, edits, id);
          assert (done + {id}) * Unwritten(edits) == done * Unwritten(edits) + {id};
        }
        done := done + {id};
      }
      assert done == edits.Keys;
      assert done * Unwritten(edits) == Unwritten(edits);
      WritesAreDetermined(env, w, tree, edits, writes);
    }

    method RewriteOriginal(path: Path, metadata: Metadata) returns (p: Progress)
      requires path in store.checkout.originals
      modifies store`clock, store`checkout
      ensures store.clock == old(store.clock) + 1 && Ran(store.plan, old(store.clock), store.clock, p)
      ensures p == Done <==> store.plan(old(store.clock)) == NoFault
      ensures var was := old(store.checkout);
        store.checkout == if p == Done then was.(originals := was.originals[path := writer.write(was.originals[path], metadata)]) else was
      ensures old(store.Healthy()) ==> store.Healthy() && p == Done
    {
      p := store.Act();
      if p == Done {
        var bytes := writer.write(store.checkout.originals[path], metadata);
        store.checkout := store.checkout.(originals := store.checkout.originals[path := bytes]);
      }
    }

    /** Runs the writer over the checkout's originals; it may stop after some of them. */
    method WriteBatch(writes: map<Path, Metadata>) returns (p: Progress)
      requires writes.Keys <= store.checkout.originals.Keys
      modifies store`clock, store`checkout
      ensures p == Done ==> store.checkout == Tree(old(store.checkout).records, Rewritten(writer, old(store.checkout).originals, writes))
      ensures Ran(store.plan, old(store.clock), store.clock, p)
      ensures p == Done ==> old(store.clock) < store.clock
      ensures old(store.Healthy()) ==> store.Healthy() && p == Done
    {
      hide Ran;
      ghost var w, records, files, start := writer, store.checkout.records, store.checkout.originals, store.clock;
      NothingRan(store.plan, start);
      var todo := writes.Keys;
      ghost var done := {};
      p := Done;
      NothingRewritten(w, files, writes);
      while todo != {}
        invariant todo == writes.Keys - done && done <= writes.Keys
        invariant p == Done && Ran(store.plan, old(store.clock), store.clock, Done)
        invariant old(store.clock) <= store.clock
        invariant store.checkout == Tree(records, Rewritten(w, files, Only(writes, done)))
        invariant old(store.Healthy()) ==> store.Healthy()
        decreases todo
      {
        var path :| path in todo;
        todo := todo - {path};
        OneMoreRewrite(w, files, writes, done, path);
        ghost var step := store.clock;
        p := RewriteOriginal(path, writes[path]);
        RanOn(store.plan, start, step, store.clock);
        if p != Done { return; }
        done := done + {path};
      }
      assert Only(writes, done) == writes;
      ghost var step := store.clock;
      p := store.Act();   // the tool's exit status and its own verification
      RanOn(store.plan, start, step, store.clock);
    }

    /** The held record carries the digest of its original as it is in the checkout. */
    predicate IsFingerprinted(e: Edit)
      reads store`checkout
    {
      var path := e.original.managedPath;
      path in store.checkout.originals && e.edited.fingerprint == Fingerprint("sha256", store.env.hash(store.checkout.originals[path]))
    }

    lemma FingerprintedWhen(e: Edit, digest: Digest)
      requires e.original.managedPath in store.checkout.originals
      requires digest == store.env.hash(store.checkout.originals[e.original.managedPath])
      requires e.edited.fingerprint == Fingerprint("sha256", digest)
      ensures IsFingerprinted(e)
    {
    }

    /** Fingerprints each rewritten original and stages its record. */
    method StageWritten(ghost tree: Tree) returns (p: Progress)
      requires Batch(store.env, writer, tree, edits) && store.isOpen
      requires store.checkout == Tree(tree.records, Rewritten(writer, tree.originals, Writes(edits)))
      requires store.staging == Staging(FinalRecords(store.env, writer, tree, edits, Unwritten(edits)), {}, map[])
      modifies store`clock, store`staging, `edits
      ensures Held(old(edits), edits)
      ensures p == Done ==> store.staging == Staging(FinalRecords(store.env, writer, tree, old(edits), old(edits).Keys), {}, map[])
      ensures p == Done ==> edits.Keys == old(edits).Keys && forall id | id in edits && old(edits)[id].ChangesMetadata() ::
        IsFingerprinted(edits[id])
      ensures Ran(store.plan, old(store.clock), store.clock, p)
      ensures old(store.Healthy()) ==> store.Healthy() && p == Done
    {
      hide FinalRecords, FinalRecord, Rewritten, Batch, Writes, Held, Ran, IsFingerprinted, LoreDurableStore.Healthy;
      ghost var env, w, before, start := store.env, writer, edits, store.clock;
      NothingRan(store.plan, start);
      var todo := edits.Keys - Unwritten(edits);
      ghost var staged := Unwritten(edits);
      p := Done;
      HeldTrivially(before);
      while todo != {}
        invariant todo <= before.Keys && staged == before.Keys - todo
        invariant p == Done && Ran(store.plan, old(store.clock), store.clock, Done)
        invariant Held(before, edits) && edits.Keys == before.Keys
        invariant forall id | id in before && id !in todo && before[id].ChangesMetadata() :: IsFingerprinted(edits[id])
        invariant forall id | id in todo :: edits[id] == before[id] && before[id].ChangesMetadata()
        invariant store.staging == Staging(FinalRecords(env, w, tree, before, staged), {}, map[])
        invariant old(store.Healthy()) ==> store.Healthy()
        decreases todo
      {
        var id :| id in todo;
        todo := todo - {id};
        FingerprintedRecord(env, w, tree, before, staged, id);
        var digest := store.env.hash(store.checkout.originals[edits[id].original.managedPath]);
        var record := edits[id].edited.(fingerprint := Fingerprint("sha256", digest));
        HeldStep(before, edits, id, record.fingerprint);
        edits := edits[id := edits[id].(edited := record)];
        FingerprintedWhen(edits[id], digest);
        ghost var step := store.clock;
        p := store.Stage(record);
        RanOn(store.plan, start, step, store.clock);
        if p != Done { return; }
        staged := staged + {id};
      }
      assert staged == before.Keys;
    }

    /** Checks, writes and stages every edit; anything short of that is undone as far as possible. */
    method Prepare() returns (outcome: SaveOutcome)
      requires store.isOpen && store.staging == EMPTY_STAGING
      requires Orderly(store.env, store.checkout) && ValidEdits(edits)
      modifies this`edits, store`clock, store`checkout, store`index, store`staging
      ensures Held(old(edits), edits) && (outcome == Saved || outcome.NotSaved? || outcome == Killed)
      ensures outcome == Saved ==>
        && Batch(store.env, writer, old(store.checkout), old(edits))
        && Prepared(store.env, writer, old(store.checkout), old(edits), store.checkout, store.staging)
        && store.index == old(store.index)
      ensures outcome == NotSaved(true) ==> store.checkout == store.committed == store.index && store.staging == EMPTY_STAGING
      ensures if outcome == Saved then Ran(store.plan, old(store.clock), store.clock, Done)
              else RanSave(store.plan, old(store.clock), store.clock, outcome)
      ensures old(store.Healthy()) ==> store.Healthy()
      ensures old(store.Healthy()) ==>
        (outcome == if AllCurrent(store.env, writer, old(store.checkout), old(edits), old(edits).Keys) then Saved else NotSaved(true))
    {
      hide Orderly, ValidEdit, Current, FinalRecords, Rewritten, Writes, EditsDeclared, Batch, Held, Ran, RanSave;
      ghost var tree, start := store.checkout, store.clock;
      HeldTrivially(edits);
      var p, writes := CheckEdits();
      ghost var step := store.clock;
      if p != Done {
        outcome := Discard(p);
        RanToSave(store.plan, start, step, store.clock, p, outcome);
        return;
      }
      WritesAreFiles(store.env, writer, tree, edits);
      p := WriteBatch(writes);
      RanOn(store.plan, start, step, store.clock);
      step := store.clock;
      if p == Died { RanToSave(store.plan, start, step, step, p, Killed); return Killed; }
      if p != Done {
        outcome := RestoreAfterFailedSave();
        RanToSave(store.plan, start, step, store.clock, p, outcome);
        return;
      }
      p := StageWritten(tree);
      RanOn(store.plan, start, step, store.clock);
      step := store.clock;
      if p == Died { RanToSave(store.plan, start, step, step, p, Killed); return Killed; }
      if p != Done {
        outcome := RestoreAfterFailedSave();
        RanToSave(store.plan, start, step, store.clock, p, outcome);
        return;
      }
      outcome := Saved;
    }

    /**
     * Publishes every held edit as one revision, or none. An edit whose record or original was
     * changed meanwhile, by whomever, makes it refuse.
     */
    method Save() returns (outcome: SaveOutcome, published: bool)
      requires ValidEdits(edits) && Orderly(store.env, store.checkout)
      modifies this`edits, store`clock, store`checkout, store`index, store`committed, store`staging
      ensures store.committed == if published then SavedTree(store.env, writer, old(store.index), old(store.checkout), old(edits))
                                 else old(store.committed)
      ensures published ==> AllCurrent(store.env, writer, old(store.checkout), old(edits), old(edits).Keys)
      ensures outcome == Saved ==> published && edits == map[]
      ensures outcome.FlushLost? ==> published
      ensures outcome.NotSaved? || outcome == Refused ==> !published
      ensures outcome != Saved ==> Held(old(edits), edits)
      ensures outcome == Refused <==> old(edits) == map[] || (store.isOpen && old(store.staging) != EMPTY_STAGING)
      ensures outcome == Refused ==> store.checkout == old(store.checkout) && store.staging == old(store.staging)
      ensures outcome == NotSaved(true) || outcome == FlushLost(true) ==>
        store.checkout == store.committed == store.index && store.staging == EMPTY_STAGING
      ensures old(store.Healthy()) && store.isOpen ==> store.Healthy()
      ensures old(store.Healthy()) && store.isOpen && outcome != Refused ==>
        (outcome == if AllCurrent(store.env, writer, old(store.checkout), old(edits), old(edits).Keys) then Saved else NotSaved(true))
      // That is: on a healthy open store with nothing staged, exactly when every edit still describes its
      // record and its original, and what is to be written can be written.
      ensures old(store.Healthy()) && store.isOpen && old(edits) != map[] && old(store.staging) == EMPTY_STAGING ==>
        (outcome == Saved <==> Savable(store.env, writer, old(store.checkout), old(edits)))
      ensures published ==> SaysWhat(store.env, writer, old(store.checkout), old(edits), store.committed.records)
      // Success is reported only if every step worked, but for the last one, which clears the staging area.
      ensures RanSave(store.plan, old(store.clock), store.clock, outcome)
    {
      hide Orderly, ValidEdits, AllCurrent, Savable, SaysWhat, SavedTree, Prepared, Workable, Accepts, EditsDeclared, Applied, Batch, Held, StagingLaws.Published, Ran, RanSave;
      ghost var start := store.clock;
      HeldTrivially(edits);
      NothingRan(store.plan, start);
      RanToSave(store.plan, start, start, start, Failed, Refused);
      published := false;
      AllCurrentExactlyWhen(store.env, writer, store.checkout, edits);
      if edits == map[] { return Refused, false; }
      if !store.isOpen { outcome := Discard(Failed); return; }   // no record can be loaded
      if store.staging != EMPTY_STAGING { return Refused, false; }
      ghost var env, w, index, tree, before := store.env, writer, store.index, store.checkout, edits;
      outcome := Prepare();
      if outcome == Saved {
        PreparedIsReady(env, w, index, tree, before, store.checkout, store.staging);
        SavedTreeSays(env, w, index, tree, before);
        ghost var step := store.clock;
        outcome, published := Publish();
        RanToSave(store.plan, start, step, store.clock, Done, outcome);
      }
    }

    /** Commits what was prepared; a failure keeps the edits. */
    method Publish() returns (outcome: SaveOutcome, published: bool)
      requires store.isOpen && Workable(store.env, store.checkout, Cleaned(store.staging))
      requires Accepts(store.env, store.checkout, Cleaned(store.staging))
      modifies this`edits, store`clock, store`checkout, store`index, store`committed, store`staging
      ensures store.committed == if published then StagingLaws.Published(store.env, old(store.index), old(store.checkout), Cleaned(old(store.staging)))
                                 else old(store.committed)
      ensures outcome == Saved ==> published && edits == map[]
      ensures outcome != Saved ==> edits == old(edits)
      ensures outcome.FlushLost? ==> published
      ensures outcome.NotSaved? ==> !published
      ensures outcome != Refused
      ensures outcome == NotSaved(true) || outcome == FlushLost(true) ==>
        store.checkout == store.committed == store.index && store.staging == EMPTY_STAGING
      ensures RanSave(store.plan, old(store.clock), store.clock, outcome)
      ensures old(store.Healthy()) ==> store.Healthy() && outcome == Saved
    {
      hide Accepts, EditsDeclared, Applied, Workable, OneOwner, StagingLaws.Published, Cleaned, Ran, RanCommit, RanSave;
      ghost var start := store.clock;
      CleaningKeepsForm(store.env, store.checkout, store.staging);
      var result, intact;
      result, published, intact := store.Commit();
      ghost var step := store.clock;
      RanCommitToSave(store.plan, start, step, result);
      if result == Committed {
        edits := map[];
        return Saved, published;
      }
      if result == Crashed { return Killed, published; }
      outcome := RestoreAfterFailedSave();
      RanToSave(store.plan, start, step, store.clock, Failed, outcome);
      if published && outcome.NotSaved? {
        outcome := FlushLost(outcome.restored);
      }
    }

    /**
     * Saves, and when that fails but leaves the store restored, saves again. `healthy` says that
     * the second attempt met no fault.
     */
    method SaveTwice() returns (first: SaveOutcome, second: SaveOutcome, ghost healthy: bool)
      requires store.isOpen && store.staging == EMPTY_STAGING && store.checkout == store.committed == store.index
      requires edits != map[] && ValidEdits(edits) && Orderly(store.env, store.committed)
      modifies this`edits, store`clock, store`checkout, store`index, store`committed, store`staging
      // After a clean failure the retry commits what a first-time success would have committed.
      ensures old(store.Healthy()) && first == NotSaved(true) ==> healthy
      ensures first == NotSaved(true) && healthy ==>
        second == if AllCurrent(store.env, writer, old(store.committed), old(edits), old(edits).Keys) then Saved else NotSaved(true)
      ensures first == NotSaved(true) && second == Saved ==>
        store.committed == SavedTree(store.env, writer, old(store.committed), old(store.committed), old(edits))
      // After a lost flush everything is published, and the retry is refused.
      ensures first == FlushLost(true) && (exists id | id in old(edits) :: old(edits)[id].edited != old(edits)[id].original) ==>
        && (second.NotSaved? || second == Killed) && Held(old(edits), edits)
        && store.committed == SavedTree(store.env, writer, old(store.committed), old(store.committed), old(edits))
    {
      hide AllCurrent, Savable, SaysWhat, SavedTree, Batch, Held, Orderly, ValidEdit, LoreDurableStore.Healthy;
      ghost var env, w, tree, before := store.env, writer, store.committed, edits;
      var published, again;
      first, published := Save();
      second, healthy := first, false;
      if first != NotSaved(true) && first != FlushLost(true) { return; }
      ghost var held := edits;
      healthy := store.Healthy();
      HeldIsValid(before, held);
      if published {
        AllCurrentIsBatch(env, w, tree, before);
        PublishedIsOrderly(env, w, tree, before);
        LostFlushRetryIsStale(env, w, tree, before, held);
      }
      second, again := Save();
      HeldTwice(before, held, edits);
      if first == NotSaved(true) { HeldIsAsCurrent(env, w, tree, before, held); }
    }
  }

  lemma HeldIsValid(before: map<Id, Edit>, after: map<Id, Edit>)
    requires Held(before, after) && ValidEdits(before)
    ensures ValidEdits(after) && after.Keys == before.Keys
  {
    forall id | id in after
      ensures ValidEdit(id, after[id])
    {
      assert ValidEdit(id, before[id]);
    }
  }

  lemma HeldTwice(a: map<Id, Edit>, b: map<Id, Edit>, c: map<Id, Edit>)
    requires Held(a, b)
    ensures Held(b, c) ==> Held(a, c)
  {
  }

  /** Held edits are as current as they were, and what they amount to is the same. */
  lemma HeldIsAsCurrent(env: Env, w: Writer, tree: Tree, before: map<Id, Edit>, after: map<Id, Edit>)
    requires Held(before, after) && ValidEdits(before) && Orderly(env, tree)
    ensures AllCurrent(env, w, tree, after, after.Keys) == AllCurrent(env, w, tree, before, before.Keys)
    ensures AllCurrent(env, w, tree, before, before.Keys) ==>
      SavedTree(env, w, tree, tree, after) == SavedTree(env, w, tree, tree, before)
  {
    hide Orderly, SavedTree;
    forall id | id in before
      ensures Current(env, w, tree, after[id]) == Current(env, w, tree, before[id])
    {
    }
    if AllCurrent(env, w, tree, before, before.Keys) {
      RetryCommitsTheSame(env, w, tree, tree, before, after);
    }
  }

  lemma AllCurrentIsBatch(env: Env, w: Writer, tree: Tree, edits: map<Id, Edit>)
    requires Orderly(env, tree) && ValidEdits(edits) && AllCurrent(env, w, tree, edits, edits.Keys)
    ensures Batch(env, w, tree, edits)
  {
  }

  lemma PublishedIsOrderly(env: Env, w: Writer, tree: Tree, edits: map<Id, Edit>)
    requires Batch(env, w, tree, edits)
    ensures Orderly(env, SavedTree(env, w, tree, tree, edits))
  {
    hide Batch, FinalRecord, FinalRecords, Rewritten, Refingerprints, Writes, Applied, WellFormed;
    var checkout := Tree(tree.records, Rewritten(w, tree.originals, Writes(edits)));
    var st := Staging(FinalRecords(env, w, tree, edits, edits.Keys), {}, map[]);
    PreparedIsWellFormed(env, w, tree, edits, checkout, st);
    AppliedStaysWellFormed(env, checkout, st);
    AppliedRecords(env, checkout, st);
    assert tree.records - {} == tree.records;
    OrderByRecords(env, Applied(env, checkout, st), SavedTree(env, w, tree, tree, edits));
  }

  lemma OrderByRecords(env: Env, a: Tree, b: Tree)
    requires Orderly(env, a) && a.records == b.records
    ensures Orderly(env, b)
  {
  }

  /**
   * After a lost flush the revision holds the edits, so that retrying them is refused, unless
   * every one of them changes nothing.
   */
  lemma LostFlushRetryIsStale(env: Env, w: Writer, tree: Tree, before: map<Id, Edit>, after: map<Id, Edit>)
    requires Batch(env, w, tree, before) && Held(before, after)
    ensures AllCurrent(env, w, SavedTree(env, w, tree, tree, before), after, after.Keys)
       <==> forall id | id in before :: before[id].edited == before[id].original
  {
    hide Orderly, FinalRecord, FinalRecords, Writes, Refingerprints;
    var saved := SavedTree(env, w, tree, tree, before);
    forall id | id in before
      ensures Current(env, w, saved, after[id]) ==> before[id].edited == before[id].original
    {
      SavedRecordAt(env, w, tree, before, id);
      FinalRecordChanges(env, w, tree, before[id]);
    }
    if forall id | id in before :: before[id].edited == before[id].original {
      NothingRefingerprinted(env, w, tree, before);
      forall id | id in before
        ensures Current(env, w, saved, after[id])
      {
        SavedRecordAt(env, w, tree, before, id);
        FinalRecordChanges(env, w, tree, before[id]);
      }
    }
  }

  lemma SavedRecordAt(env: Env, w: Writer, tree: Tree, edits: map<Id, Edit>, id: Id)
    requires Batch(env, w, tree, edits) && id in edits
    ensures Current(env, w, tree, edits[id]) && ValidEdit(id, edits[id])
    ensures var saved := SavedTree(env, w, tree, tree, edits);
      env.nameOf(id) in saved.records && saved.records[env.nameOf(id)] == FinalRecord(env, w, tree, edits[id])
  {
    assert ValidEdit(id, edits[id]) && Current(env, w, tree, edits[id]);
    EditIsStaged(env, w, tree, edits, id);
    FinalRecordAt(env, w, tree, edits, edits.Keys, env.nameOf(id));
  }

  lemma FinalRecordChanges(env: Env, w: Writer, tree: Tree, e: Edit)
    ensures FinalRecord(env, w, tree, e) == e.original ==> e.edited == e.original
    ensures e.edited == e.original ==> FinalRecord(env, w, tree, e) == e.original
  {
  }

  lemma NothingRefingerprinted(env: Env, w: Writer, tree: Tree, edits: map<Id, Edit>)
    requires forall id | id in edits :: edits[id].edited == edits[id].original
    ensures !Refingerprints(env, w, tree, edits)
  {
  }

  /** Each original with a changed description is the writer's; every other one is as it was. */
  ghost predicate WritesWhat(w: Writer, files: map<Path, Bytes>, edits: map<Id, Edit>, after: map<Path, Bytes>) {
    && after.Keys == files.Keys
    && (forall id | id in edits && edits[id].edited.metadata != edits[id].original.metadata :: var p := edits[id].original.managedPath;
          p in files && p in after && after[p] == w.write(files[p], edits[id].edited.metadata))
    && forall p | p in files && p in after && (forall id | id in edits && edits[id].original.managedPath == p ::
          edits[id].edited.metadata == edits[id].original.metadata) :: after[p] == files[p]
  }

  lemma RewritesSay(env: Env, w: Writer, tree: Tree, edits: map<Id, Edit>)
    requires Batch(env, w, tree, edits)
    ensures WritesWhat(w, tree.originals, edits, Rewritten(w, tree.originals, Writes(edits)))
  {
    hide Orderly, Writes, ValidEdit;
    forall id | id in edits && edits[id].edited.metadata != edits[id].original.metadata
      ensures edits[id].original.managedPath in tree.originals
      ensures edits[id].original.managedPath in Writes(edits)
      ensures Writes(edits)[edits[id].original.managedPath] == edits[id].edited.metadata
    {
      assert Current(env, w, tree, edits[id]);
      WriteAt(env, w, tree, edits, id);
    }
    forall p | p in Writes(edits)
      ensures exists id | id in edits && edits[id].original.managedPath == p :: edits[id].edited.metadata != edits[id].original.metadata
    {
      var id := WriteComesFromEdit(edits, p);
    }
  }

  /** Where nothing was changed outside, what is published is every original, rewritten as its edit says. */
  lemma UndisturbedSave(env: Env, w: Writer, tree: Tree, edits: map<Id, Edit>)
    requires Batch(env, w, tree, edits) && CollisionFree(env)
    ensures SavedTree(env, w, tree, tree, edits).originals == Rewritten(w, tree.originals, Writes(edits))
    ensures WritesWhat(w, tree.originals, edits, SavedTree(env, w, tree, tree, edits).originals)
  {
    hide Orderly, Writes;
    RewritesSay(env, w, tree, edits);
    if !Refingerprints(env, w, tree, edits) {
      forall p | p in Writes(edits) && p in tree.originals
        ensures w.write(tree.originals[p], Writes(edits)[p]) == tree.originals[p]
      {
        var id := WriteComesFromEdit(edits, p);
        WriteAt(env, w, tree, edits, id);
        assert Current(env, w, tree, edits[id]);
      }
    }
  }

  /**
   * A save leaves every record with its original exactly when it publishes no original that was
   * changed outside: either no fingerprint changes, or all other originals are what they were.
   */
  lemma SaveKeepsOriginalsMatchedExactlyWhen(env: Env, w: Writer, index: Tree, tree: Tree, edits: map<Id, Edit>)
    requires Batch(env, w, tree, edits)
    requires Matched(env, index) && index.records == tree.records
    ensures Matched(env, SavedTree(env, w, index, tree, edits)) <==>
      (Refingerprints(env, w, tree, edits) ==>
         forall f | ManagedAt(tree.records, f) && !EditedAt(tree, edits, f) ::
           FileMatches(env, tree.originals, tree.records[f].managedPath, tree.records[f].fingerprint.digest))
  {
    hide Batch, FinalRecord, Writes, Current, ValidEdit, Refingerprints, SavedTree;
    var saved := SavedTree(env, w, index, tree, edits);
    forall f | ManagedAt(tree.records, f)
      ensures ManagedAt(saved.records, f)
      ensures FileMatches(env, saved.originals, saved.records[f].managedPath, saved.records[f].fingerprint.digest)
         <==> (Refingerprints(env, w, tree, edits) && !EditedAt(tree, edits, f) ==>
                 FileMatches(env, tree.originals, tree.records[f].managedPath, tree.records[f].fingerprint.digest))
    {
      if EditedAt(tree, edits, f) {
        EditedRecordMatches(env, w, index, tree, edits, f);
      } else {
        UneditedRecordStays(env, w, index, tree, edits, f);
      }
    }
    SavedRecordsAreOld(env, w, index, tree, edits);
  }

  const OTHER := SAMPLE.(id := "b", fingerprint := Fingerprint("sha256", "e"), managedPath := "originals/b")

  /** One photo is edited while another is changed outside: the save publishes that change too. */
  lemma ForeignChangeIsPublished(env: Env, w: Writer, m: Metadata, a: Bytes, b: Bytes, foreign: Bytes)
    requires env.nameOf("a") == "a.json" && env.nameOf("b") == "b.json"
    requires env.inside("originals/a") && w.supports("originals/a") && m != SAMPLE.metadata
    requires env.hash(a) == "d" && env.hash(b) == "e" && env.hash(foreign) != "e" && env.hash(w.write(a, m)) != "d"
    ensures var records := map["a.json" := SAMPLE, "b.json" := OTHER];
      var committed := Tree(records, map["originals/a" := a, "originals/b" := b]);
      var checkout := Tree(records, map["originals/a" := a, "originals/b" := foreign]);
      var edits := map["a" := Edit(SAMPLE, SAMPLE.(metadata := m))];
      && Matched(env, committed) && Batch(env, w, checkout, edits)
      && !Matched(env, SavedTree(env, w, committed, checkout, edits))
  {
    hide SavedTree;
    var records := map["a.json" := SAMPLE, "b.json" := OTHER];
    var committed := Tree(records, map["originals/a" := a, "originals/b" := b]);
    var checkout := Tree(records, map["originals/a" := a, "originals/b" := foreign]);
    var edits := map["a" := Edit(SAMPLE, SAMPLE.(metadata := m))];
    assert "originals/" <= SAMPLE.managedPath && "originals/" <= OTHER.managedPath;
    assert FinalRecord(env, w, checkout, edits["a"]).fingerprint != SAMPLE.fingerprint;
    SaveKeepsOriginalsMatchedExactlyWhen(env, w, committed, checkout, edits);
    assert ManagedAt(checkout.records, "b.json") && !EditedAt(checkout, edits, "b.json");
  }

  /** The same by a run of the service, in any healthy store that holds these two photos. */
  method SavePublishesAForeignChange(store: LoreDurableStore, w: Writer, m: Metadata, a: Bytes, b: Bytes, foreign: Bytes)
    returns (outcome: SaveOutcome)
    requires store.env.nameOf("a") == "a.json" && store.env.nameOf("b") == "b.json"
    requires store.env.inside("originals/a") && w.supports("originals/a") && m != SAMPLE.metadata
    requires store.env.hash(a) == "d" && store.env.hash(b) == "e" && store.env.hash(foreign) != "e" && store.env.hash(w.write(a, m)) != "d"
    requires store.isOpen && store.Healthy() && store.staging == EMPTY_STAGING && store.committed == store.checkout == store.index
    requires store.committed == Tree(map["a.json" := SAMPLE, "b.json" := OTHER], map["originals/a" := a, "originals/b" := b])
    modifies store
    ensures old(Matched(store.env, store.committed))
    ensures outcome == Saved && !Matched(store.env, store.committed)
  {
    hide Matched, Batch, SavedTree, AllCurrent, Orderly, ValidEdits;
    ForeignChangeIsPublished(store.env, w, m, a, b, foreign);
    store.checkout := store.checkout.(originals := store.checkout.originals["originals/b" := foreign]);   // by another program
    assert store.checkout.originals == map["originals/a" := a, "originals/b" := foreign];
    var service := new MetadataEditService(store, w, given => given);
    NoEditsAreValid();
    var ok := service.Stage("a", m, SAMPLE.recipe);
    assert service.edits == map["a" := Edit(SAMPLE, SAMPLE.(metadata := m))];
    BatchMeans(store.env, w, store.checkout, service.edits);
    var published;
    outcome, published := service.Save();
  }

  /** A rotation needs no write: it is saved although the writer supports nothing. */
  method RotationNeedsNoWriter(store: LoreDurableStore, w: Writer, rotated: Recipe, a: Bytes) returns (outcome: SaveOutcome)
    requires store.env.nameOf("a") == "a.json" && store.env.inside("originals/a") && store.env.hash(a) == "d"
    requires forall p :: !w.supports(p)
    requires rotated != SAMPLE.recipe
    requires store.isOpen && store.Healthy() && store.staging == EMPTY_STAGING && store.committed == store.checkout == store.index
    requires store.committed == Tree(map["a.json" := SAMPLE], map["originals/a" := a])
    modifies store
    ensures outcome == Saved && store.committed.records == map["a.json" := SAMPLE.(recipe := rotated.(revision := SAMPLE.recipe.revision + 1))]
  {
    hide *;
    var service := new MetadataEditService(store, w, given => given);
    NoEditsAreValid();
    SampleIsA();
    var ok := service.Stage("a", SAMPLE.metadata, rotated);
    assert service.edits["a"].original == SAMPLE && service.normalize(SAMPLE.metadata) == SAMPLE.metadata;
    OnlyRotated(service.edits, rotated);
    RotationIsSavable(store.env, w, store.checkout, service.edits, rotated, a);
    ghost var tree, edits := store.checkout, service.edits;
    var published;
    outcome, published := service.Save();
    RotationSays(store.env, w, tree, edits, rotated, store.committed.records);
  }

  lemma SampleIsA()
    ensures SAMPLE.id == "a" && SAMPLE.storage == Managed
  {
  }

  ghost predicate RotatedOnly(edits: map<Id, Edit>, rotated: Recipe) {
    edits.Keys == {"a"} && edits["a"] == Edit(SAMPLE, SAMPLE.(recipe := rotated.(revision := SAMPLE.recipe.revision + 1)))
  }

  lemma OnlyRotated(edits: map<Id, Edit>, rotated: Recipe)
    requires edits.Keys == {"a"} && edits["a"].original == SAMPLE
    requires edits["a"].edited == SAMPLE.(recipe := edits["a"].edited.recipe)
    requires edits["a"].edited.recipe.operations == rotated.operations && edits["a"].edited.recipe.revision == SAMPLE.recipe.revision + 1
    ensures RotatedOnly(edits, rotated)
  {
  }

  lemma RotationIsSavable(env: Env, w: Writer, tree: Tree, edits: map<Id, Edit>, rotated: Recipe, a: Bytes)
    requires env.nameOf("a") == "a.json" && env.inside("originals/a") && env.hash(a) == "d"
    requires tree == Tree(map["a.json" := SAMPLE], map["originals/a" := a])
    requires RotatedOnly(edits, rotated)
    ensures Orderly(env, tree) && ValidEdits(edits) && edits != map[] && Savable(env, w, tree, edits)
  {
    assert "originals/" <= SAMPLE.managedPath;
    assert "a" in edits;
  }

  lemma RotationSays(env: Env, w: Writer, tree: Tree, edits: map<Id, Edit>, rotated: Recipe, records: map<FileName, Record>)
    requires env.nameOf("a") == "a.json" && tree.records == map["a.json" := SAMPLE]
    requires RotatedOnly(edits, rotated) && SaysWhat(env, w, tree, edits, records)
    ensures records == map["a.json" := SAMPLE.(recipe := rotated.(revision := SAMPLE.recipe.revision + 1))]
  {
    assert "a" in edits && edits["a"].edited.metadata == SAMPLE.metadata;
  }

  lemma NoEditsAreValid()
    ensures ValidEdits(map[])
  {
  }

  lemma BatchMeans(env: Env, w: Writer, tree: Tree, edits: map<Id, Edit>)
    requires Batch(env, w, tree, edits)
    ensures Orderly(env, tree) && ValidEdits(edits) && AllCurrent(env, w, tree, edits, edits.Keys)
  {
  }

  lemma SavedRecordsAreOld(env: Env, w: Writer, index: Tree, tree: Tree, edits: map<Id, Edit>)
    requires Batch(env, w, tree, edits)
    ensures forall f | ManagedAt(SavedTree(env, w, index, tree, edits).records, f) :: ManagedAt(tree.records, f)
  {
    hide FinalRecord, Writes, Refingerprints;
  }

  lemma EditedRecordMatches(env: Env, w: Writer, index: Tree, tree: Tree, edits: map<Id, Edit>, f: FileName)
    requires Batch(env, w, tree, edits) && EditedAt(tree, edits, f)
    requires Matched(env, index) && index.records == tree.records
    ensures var saved := SavedTree(env, w, index, tree, edits);
      && ManagedAt(saved.records, f)
      && FileMatches(env, saved.originals, saved.records[f].managedPath, saved.records[f].fingerprint.digest)
  {
    hide Batch, Writes, Current, ValidEdit;
    var id := tree.records[f].id;
    FinalRecordAt(env, w, tree, edits, edits.Keys, f);
    PathIsNamed(env, w, tree, edits, id);
    assert FileMatches(env, index.originals, tree.records[f].managedPath, tree.records[f].fingerprint.digest);
    if edits[id].ChangesMetadata() {
      WriteAt(env, w, tree, edits, id);
    } else {
      OthersAreNotWritten(env, w, tree, edits, f);
      UnwrittenMatches(env, w, tree, edits[id], id);
    }
  }

  lemma UnwrittenMatches(env: Env, w: Writer, tree: Tree, e: Edit, id: Id)
    requires ValidEdit(id, e) && Current(env, w, tree, e) && !e.ChangesMetadata()
    ensures FinalRecord(env, w, tree, e).fingerprint == e.original.fingerprint
    ensures FileMatches(env, tree.originals, e.original.managedPath, e.original.fingerprint.digest)
  {
  }

  lemma UneditedRecordStays(env: Env, w: Writer, index: Tree, tree: Tree, edits: map<Id, Edit>, f: FileName)
    requires Batch(env, w, tree, edits) && ManagedAt(tree.records, f) && !EditedAt(tree, edits, f)
    requires Matched(env, index) && index.records == tree.records
    ensures var saved := SavedTree(env, w, index, tree, edits);
      && ManagedAt(saved.records, f)
      && (FileMatches(env, saved.originals, saved.records[f].managedPath, saved.records[f].fingerprint.digest)
          <==> (Refingerprints(env, w, tree, edits) ==>
                  FileMatches(env, tree.originals, tree.records[f].managedPath, tree.records[f].fingerprint.digest)))
  {
    hide Orderly, Writes, FinalRecord, Refingerprints;
    OthersAreNotWritten(env, w, tree, edits, f);
    assert FileMatches(env, index.originals, tree.records[f].managedPath, tree.records[f].fingerprint.digest);
  }

  lemma OthersAreNotWritten(env: Env, w: Writer, tree: Tree, edits: map<Id, Edit>, f: FileName)
    requires Batch(env, w, tree, edits) && ManagedAt(tree.records, f)
    requires tree.records[f].id in edits ==> !edits[tree.records[f].id].ChangesMetadata()
    ensures tree.records[f].managedPath !in Writes(edits)
  {
    if tree.records[f].managedPath in Writes(edits) {
      var id := WriteComesFromEdit(edits, tree.records[f].managedPath);
      PathHasOneRecord(env, w, tree, edits, id, f);
    }
  }

  lemma PathHasOneRecord(env: Env, w: Writer, tree: Tree, edits: map<Id, Edit>, id: Id, f: FileName)
    requires Batch(env, w, tree, edits) && id in edits && ManagedAt(tree.records, f)
    requires tree.records[f].managedPath == edits[id].original.managedPath
    ensures tree.records[f].id == id
  {
    PathIsNamed(env, w, tree, edits, id);
    assert ManagedAt(tree.records, env.nameOf(id));
  }

  /** What the commit asks of the checkout and the staging area, and what it will make of them. */
  lemma PreparedIsReady(env: Env, w: Writer, index: Tree, tree: Tree, edits: map<Id, Edit>, checkout: Tree, st: Staging)
    requires Batch(env, w, tree, edits) && Prepared(env, w, tree, edits, checkout, st)
    requires edits != map[]
    ensures Workable(env, checkout, Cleaned(st)) && AllCurrent(env, w, tree, edits, edits.Keys)
    ensures Accepts(env, checkout, Cleaned(st))
    ensures StagingLaws.Published(env, index, checkout, Cleaned(st)) == SavedTree(env, w, index, tree, edits)
  {
    hide Prepared, Applied, SavedTree, Accepts, Orderly, ValidEdits, AllCurrent, Workable;
    PreparedIsWorkable(env, w, tree, edits, checkout, st);
    PreparedIsAccepted(env, w, tree, edits, checkout, st);
    PreparedCommitsTheSave(env, w, index, tree, edits, checkout, st);
  }

  lemma HeldTrivially(edits: map<Id, Edit>)
    ensures Held(edits, edits)
  {
  }

  lemma HeldStep(before: map<Id, Edit>, after: map<Id, Edit>, id: Id, fingerprint: Fingerprint)
    requires Held(before, after) && id in before && before[id].ChangesMetadata()
    ensures id in after && Held(before, after[id := after[id].(edited := after[id].edited.(fingerprint := fingerprint))])
  {
  }

  lemma FingerprintedRecord(env: Env, w: Writer, tree: Tree, edits: map<Id, Edit>, staged: set<Id>, id: Id)
    requires Batch(env, w, tree, edits) && id in edits && edits[id].ChangesMetadata()
    ensures ValidEdit(id, edits[id])
    ensures var p := edits[id].original.managedPath; var files := Rewritten(w, tree.originals, Writes(edits));
      && p in files
      && FinalRecord(env, w, tree, edits[id]) == edits[id].edited.(fingerprint := Fingerprint("sha256", env.hash(files[p])))
    ensures FinalRecords(env, w, tree, edits, staged + {id})
         == FinalRecords(env, w, tree, edits, staged)[env.nameOf(id) := FinalRecord(env, w, tree, edits[id])]
  {
    hide Writes, FinalRecords;
    assert ValidEdit(id, edits[id]) && Current(env, w, tree, edits[id]);
    WriteAt(env, w, tree, edits, id);
    OneMoreFinalRecord(env, w, tree, edits, staged, id);
  }

  lemma WritesAreFiles(env: Env, w: Writer, tree: Tree, edits: map<Id, Edit>)
    requires Batch(env, w, tree, edits)
    ensures Writes(edits).Keys <= tree.originals.Keys
  {
    forall p | p in Writes(edits)
      ensures p in tree.originals
    {
      var id := WriteComesFromEdit(edits, p);
      WriteAt(env, w, tree, edits, id);
    }
  }

  lemma OrderlyIsNamed(env: Env, tree: Tree)
    requires Orderly(env, tree)
    ensures Named(env, tree.records)
  {
  }

  lemma NoFinalRecords(env: Env, w: Writer, tree: Tree, edits: map<Id, Edit>)
    ensures FinalRecords(env, w, tree, edits, {} * Unwritten(edits)) == map[]
  {
  }

  lemma UnwrittenFinalRecord(env: Env, w: Writer, tree: Tree, edits: map<Id, Edit>, id: Id)
    requires id in edits && ValidEdit(id, edits[id]) && !edits[id].ChangesMetadata()
    ensures FinalRecord(env, w, tree, edits[id]) == edits[id].edited && edits[id].edited.id == id
  {
  }
}
