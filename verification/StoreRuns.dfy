/** What a user of the durable store can rely on across crashes, retries and whole histories. */
module StoreRuns {
  import opened Media
  import opened StagingLaws
  import opened CommitLaws
  import opened LoreStore

  /** The committed tree obeys everything later commits rely on. */
  ghost predicate Sound(env: Env, tree: Tree) {
    Matched(env, tree) && WellFormed(env, tree, EMPTY_STAGING) && NotNested(tree.originals.Keys)
  }

  /** The staging area is fit to be committed over this checkout. */
  ghost predicate Fit(env: Env, base: Tree, st: Staging) {
    WellFormed(env, base, st) && NotNested(st.originals.Keys) && forall f | f in st.records :: !LosesOriginal(st, f)
  }

  lemma CleaningKeepsFitness(env: Env, base: Tree, st: Staging)
    requires Fit(env, base, st)
    ensures Fit(env, base, Cleaned(st))
  {
    forall f | f in st.records && ManagedAt(st.records, f) && st.records[f].managedPath in st.originals
      ensures st.records[f].managedPath in Cleaned(st).originals
    {
      assert Claims(st, f, st.records[f].managedPath);
    }
  }

  /** One commit takes a sound tree to a sound tree. */
  lemma CommitKeepsTreeSound(env: Env, committed: Tree, base: Tree, st: Staging)
    requires Sound(env, committed) && EditsDeclared(env, committed, base, st)
    requires Fit(env, base, st) && Accepts(env, base, Cleaned(st))
    ensures Sound(env, Applied(env, base, Cleaned(st)))
  {
    hide Applied, Accepts, Matched, EditsDeclared, WellFormed, Cleaned, Beneath, LosesOriginal;
    CleaningKeepsFitness(env, base, st);
    CleaningKeepsEdits(env, committed, base, st);
    CleanedIsReferenced(st);
    OriginalsMatchExactlyWhen(env, committed, base, Cleaned(st));
    AppliedStaysWellFormed(env, base, Cleaned(st));
    NoNewFiles(env, committed, base, st);
    AppliedStaysNotNested(env, base, Cleaned(st));
  }

  lemma CleanedIsReferenced(st: Staging)
    ensures Cleaned(st).originals == ReferencedOriginals(Cleaned(st))
    ensures Cleaned(st).records == st.records && Cleaned(st).tombstones == st.tombstones
  {
    CleanedIsCleaned(st);
  }

  /** Over a sound tree, a commit can finish whatever it accepts. */
  lemma FitIsWorkable(env: Env, committed: Tree, base: Tree, st: Staging)
    requires Sound(env, committed) && EditsDeclared(env, committed, base, st) && Fit(env, base, st)
    ensures Accepts(env, base, Cleaned(st)) ==> Workable(env, base, Cleaned(st))
  {
    hide Accepts, Matched, EditsDeclared, WellFormed, Cleaned, LosesOriginal;
    CleaningKeepsFitness(env, base, st);
    CleaningKeepsEdits(env, committed, base, st);
    CleanedIsReferenced(st);
    if Accepts(env, base, Cleaned(st)) {
      NoDirectoryIsRemoved(env, committed, base, Cleaned(st));
    }
  }

  datatype Snapshot = Snapshot(committed: Tree, checkout: Tree, staging: Staging)

  /**
   * One observable step of a store: either the revision stands still - staging, removing,
   * discarding, editing the checkout, failing, crashing, reopening - or a fit staging area
   * was published.
   */
  ghost predicate Step(env: Env, s: Snapshot, t: Snapshot) {
    || t.committed == s.committed
    || (&& EditsDeclared(env, s.committed, s.checkout, s.staging)
        && Fit(env, s.checkout, s.staging)
        && Accepts(env, s.checkout, Cleaned(s.staging))
        && t.committed == Applied(env, s.checkout, Cleaned(s.staging)))
  }

  ghost predicate Run(env: Env, run: seq<Snapshot>) {
    forall i | 0 <= i < |run| - 1 :: Step(env, run[i], run[i + 1])
  }

  /** Every revision of every run has each record's original, with the recorded digest. */
  lemma {:induction false} EveryRevisionIsSound(env: Env, run: seq<Snapshot>, i: nat)
    requires Run(env, run) && i < |run|
    requires Sound(env, run[0].committed)
    ensures Sound(env, run[i].committed)
  {
    if i > 0 {
      EveryRevisionIsSound(env, run, i - 1);
      var s := run[i - 1];
      assert Step(env, s, run[i]);
      if run[i].committed != s.committed {
        CommitKeepsTreeSound(env, s.committed, s.checkout, s.staging);
      }
    }
  }

  function Snap(store: LoreDurableStore): Snapshot
    reads store
  {
    Snapshot(store.committed, store.checkout, store.staging)
  }

  /** A commit, a crash or failure anywhere in it, and a new process that opens the store. */
  method CommitAndReopen(store: LoreDurableStore) returns (reopened: bool, published: bool)
    requires store.Ready() && Fit(store.env, store.checkout, store.staging)
    modifies store
    ensures Step(store.env, old(Snap(store)), Snap(store))
    ensures store.committed == if published then Applied(store.env, old(store.checkout), Cleaned(old(store.staging)))
                               else old(store.committed)
    ensures published ==> Accepts(store.env, old(store.checkout), Cleaned(old(store.staging)))
    ensures reopened ==> store.checkout == store.committed && store.Ready()
    ensures if published then PartOf(store.staging, old(store.staging)) else WorkKept(old(store.staging), store.staging)
    ensures old(store.Healthy()) ==> reopened && store.Healthy()
    ensures old(store.Healthy()) && Sound(store.env, old(store.committed)) ==>
      (published <==> Accepts(store.env, old(store.checkout), Cleaned(old(store.staging))))
  {
    hide Applied, Sound, Accepts, Workable, Cleaned;
    if Sound(store.env, store.committed) { FitIsWorkable(store.env, store.committed, store.checkout, store.staging); }
    var outcome, intact;
    outcome, published, intact := store.Commit();
    store.Exit();
    reopened := store.Open();
  }

  /** How far the work `st` got over the tree `base`: published once, or all of it still staged. */
  ghost predicate Attempted(env: Env, base: Tree, st: Staging, published: bool, committed: Tree, left: Staging) {
    if published then
      committed == Applied(env, base, Cleaned(st)) && Accepts(env, base, Cleaned(st)) && PartOf(left, st)
    else
      committed == base && WorkKept(st, left)
  }

  /** Something is left that a commit would look at. */
  predicate Pending(st: Staging) {
    st.records != map[] || st.tombstones != {}
  }

  /**
   * One more attempt to commit `st`, of which `before` says whether an earlier one published it.
   * When no record is staged beside its own tombstone - `CommitLaws.ReplayIsHarmlessExactlyWhen`
   * says that this is the exact condition - it never matters how often that happens.
   */
  method CommitAgain(store: LoreDurableStore, ghost base: Tree, ghost st: Staging, ghost before: bool)
    returns (published: bool)
    requires store.Ready() && store.checkout == store.committed
    requires Sound(store.env, base) && Fit(store.env, base, st)
    requires Attempted(store.env, base, st, before, store.committed, store.staging)
    modifies store
    ensures store.isOpen && (old(store.Healthy()) ==> store.Healthy())
    ensures !published ==> store.committed == old(store.committed)
    ensures published ==> store.committed == Applied(store.env, old(store.committed), Cleaned(old(store.staging)))
    ensures st.tombstones !! st.records.Keys || !before ==>
      Attempted(store.env, base, st, before || published, store.committed, store.staging)
    // An attempt that meets no fault publishes what is acceptable, and leaves nothing staged.
    ensures old(store.Healthy()) && !before ==> (published <==> Accepts(store.env, base, Cleaned(st)))
    ensures old(store.Healthy()) && before && st.tombstones !! st.records.Keys ==>
      (published <==> Pending(old(store.staging)))
    ensures old(store.Healthy()) && (if before then st.tombstones !! st.records.Keys else published) ==>
      store.staging == EMPTY_STAGING
  {
    hide Applied, Sound, Fit, EditsDeclared, OneOwner, ReferencedOriginals, Named, UsablePaths, RecordValid, MayPublish, Accepts,
         WorkKept, PartOf, WellFormed;
    ghost var env, left := store.env, store.staging;
    LeftoverIsFit(env, base, st, before, store.committed, left);
    if !before || st.tombstones !! st.records.Keys { LeftoverIsWorkable(env, base, st, before, store.committed, left); }
    var outcome, intact;
    outcome, published, intact := store.Commit();
    SameAfterMoreKept(env, base, st, left, store.staging);
    if before && st.tombstones !! st.records.Keys {
      LeftoverReplays(env, base, st, left);
      NothingButOrphans(left);
    }
  }

  /**
   * Commit, crash anywhere, reopen, commit what is still staged: if either attempt reached the
   * revision, the result is the staging area applied exactly once, unless a record was staged
   * beside its own tombstone. `healthy` says that the second attempt met no fault.
   */
  method CommitTwice(store: LoreDurableStore) returns (first: bool, second: bool, ghost healthy: bool)
    requires store.Ready() && store.checkout == store.committed && Sound(store.env, store.committed)
    requires Fit(store.env, store.checkout, store.staging)
    modifies store
    ensures !first && !second ==> store.committed == old(store.committed)
    ensures first != second ==>
      store.committed == Applied(store.env, old(store.committed), Cleaned(old(store.staging)))
    ensures first && second && old(store.staging).tombstones !! old(store.staging).records.Keys ==>
      store.committed == Applied(store.env, old(store.committed), Cleaned(old(store.staging)))
    ensures first && second ==> exists part ::
      && PartOf(part, Cleaned(old(store.staging)))
      && store.committed == Applied(store.env, Applied(store.env, old(store.committed), Cleaned(old(store.staging))), part)
    ensures healthy ==> (first || second <==> Accepts(store.env, old(store.committed), Cleaned(old(store.staging))))
    ensures healthy && second && !first ==> store.staging == EMPTY_STAGING
    ensures old(store.Healthy()) ==> healthy
  {
    hide Applied, Sound, Fit, EditsDeclared, Accepts, WorkKept, PartOf, Cleaned;
    ghost var base, st := store.committed, store.staging;
    var reopened;
    reopened, first := CommitAndReopen(store);
    second, healthy := false, false;
    if !reopened { return; }
    ghost var left := store.staging;
    healthy := store.Healthy();
    second := CommitAgain(store, base, st, first);
    if first && second { CleanedPart(left, st); }
  }

  /** Any number of attempts, each in a process of its own, publish the staged work at most once. */
  method CommitAnyTimes(store: LoreDurableStore, attempts: nat) returns (published: bool, ghost healthy: bool, ghost tried: nat)
    requires store.Ready() && store.checkout == store.committed && Sound(store.env, store.committed)
    requires Fit(store.env, store.checkout, store.staging)
    requires store.staging.tombstones !! store.staging.records.Keys
    modifies store
    ensures Attempted(store.env, old(store.committed), old(store.staging), published, store.committed, store.staging)
    // One attempt without faults is enough, whatever happened to the others.
    ensures healthy && Accepts(store.env, old(store.committed), Cleaned(old(store.staging))) ==> published
    ensures old(store.Healthy()) && attempts > 0 ==> healthy
    // They are all made, unless the store cannot be opened any more.
    ensures tried <= attempts && (tried < attempts ==> 0 < tried && !store.isOpen)
  {
    hide Applied, Sound, Fit, EditsDeclared, Accepts, WorkKept, PartOf, Cleaned, Attempted, LoreDurableStore.Healthy;
    ghost var base, st := store.committed, store.staging;
    StagedIsAttempted(store.env, base, st);
    published, healthy, tried := false, false, 0;
    for i := 0 to attempts
      invariant store.Ready() && store.checkout == store.committed
      invariant Attempted(store.env, base, st, published, store.committed, store.staging)
      invariant healthy && Accepts(store.env, base, Cleaned(st)) ==> published
      invariant old(store.Healthy()) ==> store.Healthy() && (i > 0 ==> healthy)
      invariant tried == i
    {
      healthy := healthy || store.Healthy();
      var again := CommitAgain(store, base, st, published);
      published, tried := published || again, tried + 1;
      store.Exit();
      var reopened := store.Open();
      if !reopened { return; }
    }
  }

  lemma StagedIsAttempted(env: Env, base: Tree, st: Staging)
    ensures Attempted(env, base, st, false, base, st)
  {
  }

  lemma SameAfterMoreKept(env: Env, base: Tree, st: Staging, left: Staging, after: Staging)
    ensures WorkKept(st, left) && WorkKept(left, after) ==> WorkKept(st, after)
    ensures WorkKept(st, left) ==> Cleaned(left) == Cleaned(st)
    ensures WorkKept(st, left) && PartOf(after, left) ==> PartOf(after, st)
    ensures PartOf(left, st) && PartOf(after, left) ==> PartOf(after, st)
    ensures PartOf(left, st) && WorkKept(left, after) ==> PartOf(after, st)
  {
    if WorkKept(st, left) { KeptIsPart(st, left); }
    if WorkKept(left, after) { KeptIsPart(left, after); }
  }

  /** What an earlier attempt left is fit to be committed. */
  lemma LeftoverIsFit(env: Env, base: Tree, st: Staging, published: bool, committed: Tree, left: Staging)
    requires Sound(env, base) && Fit(env, base, st) && Attempted(env, base, st, published, committed, left)
    ensures WellFormed(env, committed, left) && OneOwner(left.records, left.records)
    ensures (published ==> st.tombstones !! st.records.Keys) ==> Fit(env, committed, left)
  {
    hide Applied, Accepts, Matched;
    if published {
      CleaningKeepsFitness(env, base, st);
      CleanedPart(left, st);
      PartIsWellFormed(env, base, Cleaned(st), Cleaned(left));
      if st.tombstones !! st.records.Keys { PartLosesNothing(st, left); }
    } else {
      KeptIsPart(st, left);
      KeptLosesNothing(st, left);
    }
  }

  /** With no record beside its own tombstone, what is left of staged work loses nothing that the whole does not. */
  lemma PartLosesNothing(st: Staging, part: Staging)
    requires PartOf(part, st) && NotNested(st.originals.Keys) && UsablePaths(st.records) && st.tombstones !! st.records.Keys
    requires forall f | f in st.records :: !LosesOriginal(st, f)
    ensures NotNested(part.originals.Keys) && forall f | f in part.records :: !LosesOriginal(part, f)
  {
    hide Beneath;
    forall f | f in part.records && ManagedAt(part.records, f) && part.records[f].managedPath !in part.originals
      ensures !IsDirectory(part.originals, part.records[f].managedPath)
    {
      assert ManagedAt(st.records, f) && !LosesOriginal(st, f);
      assert st.records[f].managedPath != "";
    }
  }

  lemma KeptLosesNothing(st: Staging, left: Staging)
    requires WorkKept(st, left) && PartOf(left, st) && NotNested(st.originals.Keys) && UsablePaths(st.records)
    requires forall f | f in st.records :: !LosesOriginal(st, f)
    ensures NotNested(left.originals.Keys) && forall f | f in left.records :: !LosesOriginal(left, f)
  {
    hide Beneath;
    forall f | f in left.records && ManagedAt(left.records, f) && left.records[f].managedPath !in left.originals
      ensures left.records[f].managedPath !in st.originals
    {
      assert Claims(st, f, st.records[f].managedPath);
      assert left.records[f].managedPath !in ReferencedOriginals(left);
    }
  }

  lemma LeftoverIsWorkable(env: Env, base: Tree, st: Staging, published: bool, committed: Tree, left: Staging)
    requires Sound(env, base) && Fit(env, base, st) && Attempted(env, base, st, published, committed, left)
    requires published ==> st.tombstones !! st.records.Keys
    ensures Accepts(env, committed, Cleaned(left)) ==> Workable(env, committed, Cleaned(left))
  {
    hide Applied, Accepts, WellFormed, Matched, Sound, Workable, Cleaned;
    LeftoverIsFit(env, base, st, published, committed, left);
    UneditedCheckout(env, base);
    if published {
      CommitKeepsTreeSound(env, base, base, st);
    }
    UneditedCheckout(env, committed);
    FitIsWorkable(env, committed, committed, left);
  }

  /** What is left of published work is accepted again, and changes nothing. */
  lemma LeftoverReplays(env: Env, base: Tree, st: Staging, left: Staging)
    requires Sound(env, base) && Fit(env, base, st) && Accepts(env, base, Cleaned(st))
    requires PartOf(left, st) && st.tombstones !! st.records.Keys
    ensures Applied(env, Applied(env, base, Cleaned(st)), Cleaned(left)) == Applied(env, base, Cleaned(st))
    ensures Accepts(env, Applied(env, base, Cleaned(st)), Cleaned(left)) <==> Pending(left)
  {
    hide Applied, EditsDeclared, ReferencedOriginals, WellFormed, RecordValid, MayPublish, Accepts, NotNested, LosesOriginal, Cleaned, Matched, PartOf;
    CleaningKeepsFitness(env, base, st);
    CleanedPart(left, st);
    CleanedIsReferenced(st);
    CleanedIsReferenced(left);
    SomethingPends(env, Applied(env, base, Cleaned(st)), Cleaned(left));
    TombstonesApart(st, left);
    ReplayChangesNothing(env, base, Cleaned(st), Cleaned(left));
    if Pending(left) {
      UneditedCheckout(env, base);
      ReplayIsAccepted(env, base, base, Cleaned(st), Cleaned(left));
    }
  }

  lemma SomethingPends(env: Env, base: Tree, st: Staging)
    ensures Pending(st) <==> st.records.Keys != {} || st.tombstones != {}
    ensures Accepts(env, base, st) ==> Pending(st)
  {
  }

  lemma TombstonesApart(st: Staging, part: Staging)
    requires PartOf(part, st) && st.tombstones !! st.records.Keys
    ensures part.tombstones !! st.records.Keys
  {
  }

  lemma NothingButOrphans(st: Staging)
    ensures !Pending(st) ==> Cleaned(st) == EMPTY_STAGING
  {
  }

  lemma CleanedPart(part: Staging, st: Staging)
    requires PartOf(part, st)
    ensures PartOf(Cleaned(part), Cleaned(st))
  {
    forall p | p in part.originals && Publishable(part, p)
      ensures Publishable(st, p)
    {
      var f :| f in part.records && Claims(part, f, p);
      assert Claims(part, f, p) && Claims(st, f, p);
    }
  }

  // ----- why the hypotheses are there -----

  const SAMPLE := Record("a", Fingerprint("sha256", "d"), FileIdentity("/a.jpg", 1, Some(0)), Managed,
                         "originals/a", Metadata(Image, "a.jpg", "/", "", [], ""), Recipe(0, ""))

  /**
   * Removing a record and staging it again without its original is accepted and commits a
   * record whose original is gone.
   */
  lemma RestagingOverATombstoneLosesTheOriginal(env: Env, bytes: Bytes)
    requires env.nameOf("a") == "a.json" && env.hash(bytes) == "d"
    ensures var base := Tree(map["a.json" := SAMPLE], map["originals/a" := bytes]);
      var st := Staging(map["a.json" := SAMPLE], {"a.json"}, map[]);
      && Sound(env, base) && WellFormed(env, base, st) && Accepts(env, base, st)
      && !Matched(env, Applied(env, base, st))
  {
    var base := Tree(map["a.json" := SAMPLE], map["originals/a" := bytes]);
    var st := Staging(map["a.json" := SAMPLE], {"a.json"}, map[]);
    assert "originals/" <= SAMPLE.managedPath;
    OriginalsMatchExactlyWhen(env, base, base, st);
    assert LosesOriginal(st, "a.json");
  }

  /** The same by a run of the store: add a record, then remove it and stage it again, then commit. */
  method RestageARemovedRecord(env: Env, bytes: Bytes) returns (store: LoreDurableStore)
    requires env.nameOf("a") == "a.json" && env.hash(bytes) == "d" && env.inside("originals/a")
    ensures ManagedAt(store.committed.records, "a.json") && !Matched(env, store.committed)
    ensures store.isOpen && store.checkout == store.committed && store.staging == EMPTY_STAGING
  {
    hide Accepts, Applied, WellFormed, Matched, EditsDeclared, OneOwner;
    store := new LoreDurableStore(env, _ => NoFault);
    var ok := store.Open();
    assert "originals/" <= SAMPLE.managedPath;
    var p := store.StageOriginal(SAMPLE, bytes);
    assert store.staging == Staging(map["a.json" := SAMPLE], {}, map["originals/a" := bytes]);
    AddingTheSample(env, bytes);
    UneditedCheckout(env, store.committed);
    var outcome, published, intact := store.Commit();
    assert store.checkout == Tree(map["a.json" := SAMPLE], map["originals/a" := bytes]);
    p := store.Remove("a");
    p := store.Stage(SAMPLE);
    assert Cleaned(store.staging) == store.staging;
    assert store.staging == Staging(map["a.json" := SAMPLE], {"a.json"}, map[]);
    RestagingOverATombstoneLosesTheOriginal(env, bytes);
    AppliedRecord(env, store.checkout, store.staging, "a.json");
    UneditedCheckout(env, store.committed);
    WellFormedHasOneOwner(env, store.checkout, store.staging);
    NoDirectoryIsRemoved(env, store.committed, store.checkout, store.staging);
    outcome, published, intact := store.Commit();
  }

  /**
   * A run of the store: the sample is committed, another program changes its original, and a new
   * version of it is staged. The commit is refused, and the revision stays.
   */
  method AForeignChangeIsRefused(env: Env, bytes: Bytes, foreign: Bytes, newer: Bytes) returns (store: LoreDurableStore, outcome: CommitOutcome)
    requires env.nameOf("a") == "a.json" && env.inside("originals/a")
    requires env.hash(bytes) == "d" && env.hash(newer) == "e" && env.hash(foreign) != "d" && env.hash(foreign) != "e"
    ensures outcome == Rejected && store.committed == Tree(map["a.json" := SAMPLE], map["originals/a" := bytes])
    ensures store.staging.originals == map["originals/a" := newer]
  {
    hide Accepts, Applied, WellFormed, Matched, EditsDeclared, OneOwner, Workable, AllBacked, NothingForeignReplaced;
    store := new LoreDurableStore(env, _ => NoFault);
    var ok := store.Open();
    assert "originals/" <= SAMPLE.managedPath;
    var p := store.StageOriginal(SAMPLE, bytes);
    assert store.staging == Staging(map["a.json" := SAMPLE], {}, map["originals/a" := bytes]);
    AddingTheSample(env, bytes);
    UneditedCheckout(env, store.committed);
    var published, intact;
    outcome, published, intact := store.Commit();
    store.checkout := store.checkout.(originals := map["originals/a" := foreign]);   // by another program
    ghost var edited := SAMPLE.(fingerprint := Fingerprint("sha256", "e"));
    p := store.StageOriginal(SAMPLE.(fingerprint := Fingerprint("sha256", "e")), newer);
    assert store.staging == Staging(map["a.json" := edited], {}, map["originals/a" := newer]);
    ForeignIsInTheWay(env, store.checkout, store.staging, edited);
    outcome, published, intact := store.Commit();
  }

  lemma ForeignIsInTheWay(env: Env, base: Tree, st: Staging, r: Record)
    requires r == SAMPLE.(fingerprint := Fingerprint("sha256", "e")) && env.nameOf("a") == "a.json"
    requires base.records == map["a.json" := SAMPLE] && "originals/a" in base.originals
    requires env.hash(base.originals["originals/a"]) != "d" && env.hash(base.originals["originals/a"]) != "e"
    requires st.records == map["a.json" := r] && st.tombstones == {} && st.originals.Keys == {"originals/a"}
    ensures Cleaned(st) == st && OneOwner(st.records, st.records) && !Accepts(env, base, st)
  {
    hide Accepts, Backed;
    assert Claims(st, "a.json", "originals/a");
    assert "originals/" <= r.managedPath;
    assert Cleaned(st) == st;
    AcceptedExactlyWhen(env, base, st);
    assert !Backed(env, base, st, "a.json") by { ForeignIsNotBacked(env, base, st, r); }
  }

  lemma ForeignIsNotBacked(env: Env, base: Tree, st: Staging, r: Record)
    requires r == SAMPLE.(fingerprint := Fingerprint("sha256", "e")) && st.records == map["a.json" := r] && st.tombstones == {}
    requires base.records == map["a.json" := SAMPLE] && "originals/a" in base.originals && "originals/a" in st.originals
    requires env.hash(base.originals["originals/a"]) != "d" && env.hash(base.originals["originals/a"]) != "e"
    ensures !Backed(env, base, st, "a.json")
  {
  }

  lemma WellFormedHasOneOwner(env: Env, base: Tree, st: Staging)
    requires WellFormed(env, base, st)
    ensures OneOwner(st.records, st.records)
  {
  }

  lemma AppliedRecord(env: Env, base: Tree, st: Staging, f: FileName)
    requires f in st.records
    ensures f in Applied(env, base, st).records && Applied(env, base, st).records[f] == st.records[f]
  {
    hide Applied;
    AppliedRecords(env, base, st);
  }

  lemma AddingTheSample(env: Env, bytes: Bytes)
    requires env.nameOf("a") == "a.json" && env.hash(bytes) == "d"
    ensures var nothing := Tree(map[], map[]);
      var st := Staging(map["a.json" := SAMPLE], {}, map["originals/a" := bytes]);
      && Workable(env, nothing, Cleaned(st)) && Accepts(env, nothing, Cleaned(st)) && OneOwner(st.records, st.records)
      && Applied(env, nothing, Cleaned(st)) == Tree(map["a.json" := SAMPLE], map["originals/a" := bytes])
  {
    hide ExpectedDigests, PreviousDigests, Applied, Chosen, Accepts, Removable;
    var st := Staging(map["a.json" := SAMPLE], {}, map["originals/a" := bytes]);
    assert "originals/" <= SAMPLE.managedPath;
    assert Claims(st, "a.json", "originals/a");
    assert Cleaned(st) == st;
    NothingToRemove(env, st);
    SampleIsAccepted(env, st, bytes);
    SampleOriginals(env, st, bytes);
    AppliedToNothing(env, st);
  }

  lemma NothingToRemove(env: Env, st: Staging)
    ensures Removable(env, Tree(map[], map[]), st)
  {
  }

  lemma SampleIsAccepted(env: Env, st: Staging, bytes: Bytes)
    requires env.nameOf("a") == "a.json" && env.hash(bytes) == "d"
    requires st == Staging(map["a.json" := SAMPLE], {}, map["originals/a" := bytes])
    ensures Accepts(env, Tree(map[], map[]), st)
  {
    hide ExpectedDigests, PreviousDigests;
    assert Claims(st, "a.json", "originals/a");
    DigestOfClaim(st, "a.json", "originals/a");
  }

  lemma SampleOriginals(env: Env, st: Staging, bytes: Bytes)
    requires env.nameOf("a") == "a.json" && WellFormed(env, Tree(map[], map[]), st)
    requires st == Staging(map["a.json" := SAMPLE], {}, map["originals/a" := bytes])
    ensures Applied(env, Tree(map[], map[]), st).originals == map["originals/a" := bytes]
  {
    hide ExpectedDigests, Applied, Chosen, WellFormed;
    var nothing, tree := Tree(map[], map[]), Applied(env, Tree(map[], map[]), st);
    assert Claims(st, "a.json", "originals/a");
    forall p
      ensures p in tree.originals <==> p == "originals/a"
      ensures p in tree.originals ==> tree.originals[p] == bytes
    {
      AppliedOriginalAt(env, nothing, st, p);
      ChosenWhenAbsent(env, nothing, st, p);
    }
  }

  lemma ChosenWhenAbsent(env: Env, base: Tree, st: Staging, p: Path)
    ensures p !in base.originals && p in st.originals ==>
      Chosen(env, ApplyTombstones(base, st.tombstones).originals, st, ExpectedDigests(st), p) == st.originals[p]
  {
    hide ExpectedDigests;
  }

  lemma AppliedToNothing(env: Env, st: Staging)
    ensures Applied(env, Tree(map[], map[]), st).records == st.records
  {
    hide Applied;
    AppliedRecords(env, Tree(map[], map[]), st);
    assert map[] - st.tombstones + st.records == st.records;
  }

  /** A photo whose original lies below that of the sample. */
  const INNER := SAMPLE.(id := "b", managedPath := "originals/a/b")

  /**
   * A record is staged without its original where the staged original of another one needs a
   * directory: the directory passes for the original, and the record is committed without one.
   */
  method ADirectoryPassesForAnOriginal(env: Env, bytes: Bytes) returns (store: LoreDurableStore)
    requires env.nameOf("a") == "a.json" && env.nameOf("b") == "b.json" && env.hash(bytes) == "d" && env.inside("originals/a/b")
    ensures ManagedAt(store.committed.records, "a.json") && !Matched(env, store.committed)
    ensures store.isOpen && store.checkout == store.committed && store.staging == EMPTY_STAGING
  {
    hide Accepts, Applied, WellFormed, Matched, EditsDeclared, OneOwner, Workable;
    store := new LoreDurableStore(env, _ => NoFault);
    var ok := store.Open();
    assert "originals/" <= INNER.managedPath;
    var p := store.Stage(SAMPLE);
    p := store.StageOriginal(INNER, bytes);
    ghost var st := Staging(map["a.json" := SAMPLE, "b.json" := INNER], {}, map["originals/a/b" := bytes]);
    assert store.staging == st;
    DirectoryPasses(env, st, bytes);
    UneditedCheckout(env, store.committed);
    var outcome, published, intact := store.Commit();
  }

  lemma DirectoryPasses(env: Env, st: Staging, bytes: Bytes)
    requires env.nameOf("a") == "a.json" && env.nameOf("b") == "b.json" && env.hash(bytes) == "d"
    requires st == Staging(map["a.json" := SAMPLE, "b.json" := INNER], {}, map["originals/a/b" := bytes])
    ensures var nothing := Tree(map[], map[]);
      && Cleaned(st) == st && OneOwner(st.records, st.records) && Workable(env, nothing, st) && Accepts(env, nothing, st)
      && ManagedAt(Applied(env, nothing, st).records, "a.json") && !Matched(env, Applied(env, nothing, st))
  {
    hide Accepts, Applied, WellFormed, Matched, EditsDeclared, OneOwner, Workable, LosesOriginal;
    var nothing := Tree(map[], map[]);
    InnerIsAccepted(env, st, bytes);
    InnerIsCleaned(st);
    UneditedCheckout(env, nothing);
    WellFormedHasOneOwner(env, nothing, st);
    NothingIsMatched(env);
    OriginalsMatchExactlyWhen(env, nothing, nothing, st);
    AppliedRecord(env, nothing, st, "a.json");
  }

  lemma NothingIsMatched(env: Env)
    ensures Matched(env, Tree(map[], map[]))
  {
  }

  lemma InnerIsCleaned(st: Staging)
    requires st.records == map["a.json" := SAMPLE, "b.json" := INNER] && st.originals.Keys == {"originals/a/b"}
    ensures Cleaned(st) == st && st.originals == ReferencedOriginals(st)
    ensures LosesOriginal(st, "a.json")
  {
    assert Claims(st, "b.json", "originals/a/b");
    assert Beneath("originals/a", "originals/a/b");
  }

  lemma InnerIsAccepted(env: Env, st: Staging, bytes: Bytes)
    requires env.nameOf("a") == "a.json" && env.nameOf("b") == "b.json" && env.hash(bytes) == "d"
    requires st == Staging(map["a.json" := SAMPLE, "b.json" := INNER], {}, map["originals/a/b" := bytes])
    ensures var nothing := Tree(map[], map[]);
      WellFormed(env, nothing, st) && Workable(env, nothing, st) && Accepts(env, nothing, st)
  {
    hide ExpectedDigests, PreviousDigests, Removable, Accepts, RecordValid, MayPublish, ApplyTombstones, Publishable;
    assert "originals/" <= SAMPLE.managedPath && "originals/" <= INNER.managedPath;
    assert "a.json" in st.records.Keys;
    NothingToRemove(env, st);
    InnerRecordsAreValid(env, st);
    InnerMayBePublished(env, st, bytes);
    AcceptsMeans(env, Tree(map[], map[]), st);
  }

  lemma InnerRecordsAreValid(env: Env, st: Staging)
    requires st.records == map["a.json" := SAMPLE, "b.json" := INNER] && st.originals.Keys == {"originals/a/b"}
    ensures forall f | f in st.records :: RecordValid(env, Tree(map[], map[]), st, f)
  {
    assert Beneath("originals/a", "originals/a/b");
  }

  lemma InnerMayBePublished(env: Env, st: Staging, bytes: Bytes)
    requires env.hash(bytes) == "d"
    requires st == Staging(map["a.json" := SAMPLE, "b.json" := INNER], {}, map["originals/a/b" := bytes])
    ensures var nothing := Tree(map[], map[]);
      MayPublish(env, ApplyTombstones(nothing, {}).originals, st, ExpectedDigests(st), PreviousDigests(env, nothing, st), "originals/a/b")
  {
    hide ExpectedDigests, PreviousDigests;
    assert Claims(st, "b.json", "originals/a/b");
    DigestOfClaim(st, "b.json", "originals/a/b");
  }

  /** Below an original that is there nothing can be published: the commit is refused. */
  method APathBelowAnOriginalIsRefused(env: Env, bytes: Bytes) returns (store: LoreDurableStore, outcome: CommitOutcome)
    requires env.nameOf("a") == "a.json" && env.nameOf("b") == "b.json" && env.hash(bytes) == "d"
    requires env.inside("originals/a") && env.inside("originals/a/b")
    ensures outcome == Rejected && store.committed == Tree(map["a.json" := SAMPLE], map["originals/a" := bytes])
    ensures store.staging.originals == map["originals/a/b" := bytes]
  {
    hide Accepts, Applied, WellFormed, Matched, EditsDeclared, OneOwner, Workable;
    store := new LoreDurableStore(env, _ => NoFault);
    var ok := store.Open();
    assert "originals/" <= SAMPLE.managedPath && "originals/" <= INNER.managedPath;
    var p := store.StageOriginal(SAMPLE, bytes);
    assert store.staging == Staging(map["a.json" := SAMPLE], {}, map["originals/a" := bytes]);
    AddingTheSample(env, bytes);
    UneditedCheckout(env, store.committed);
    var published, intact;
    outcome, published, intact := store.Commit();
    p := store.StageOriginal(INNER, bytes);
    assert store.staging == Staging(map["b.json" := INNER], {}, map["originals/a/b" := bytes]);
    InnerIsInTheWay(env, store.checkout, store.staging);
    outcome, published, intact := store.Commit();
  }

  lemma InnerIsInTheWay(env: Env, base: Tree, st: Staging)
    requires "originals/a" in base.originals && st.records == map["b.json" := INNER] && st.tombstones == {}
    requires st.originals.Keys == {"originals/a/b"}
    ensures Cleaned(st) == st && OneOwner(st.records, st.records) && !Accepts(env, base, st)
  {
    hide ExpectedDigests, PreviousDigests, MayReplace, ApplyTombstones, RecordValid;
    assert Claims(st, "b.json", "originals/a/b");
    assert Publishable(st, "originals/a/b");
    NothingIsBuried(base);
    assert Beneath("originals/a", "originals/a/b");
    assert !FileFits(base.originals, "originals/a/b");
    assert !MayPublish(env, ApplyTombstones(base, st.tombstones).originals, st, ExpectedDigests(st), PreviousDigests(env, base, st), "originals/a/b");
  }

  /**
   * When an id is both tombstoned and staged, a clear that stops after the record but before
   * the tombstone leaves work that deletes the record it had just committed.
   */
  lemma HalfClearedTombstoneDeletesTheRecord(env: Env, bytes: Bytes)
    requires env.nameOf("a") == "a.json" && env.hash(bytes) == "d"
    ensures var base := Tree(map["a.json" := SAMPLE], map["originals/a" := bytes]);
      var st := Staging(map["a.json" := SAMPLE], {"a.json"}, map["originals/a" := bytes]);
      var part := Staging(map[], {"a.json"}, map[]);
      && Fit(env, base, st) && PartOf(part, st)
      && "a.json" in Applied(env, base, st).records
      && "a.json" !in Applied(env, Applied(env, base, st), part).records
  {
    assert "originals/" <= SAMPLE.managedPath;
  }
}
