/** Laws of a commit: originals stay with their records, and replaying staged work is harmless. */
module CommitLaws {
  import opened Media
  import opened StagingLaws

  /** A published path is neither tombstoned away afterwards nor replaced. */
  lemma ClaimedPathsAreNotReplaced(env: Env, base: Tree, st: Staging, p: Path)
    requires WellFormed(env, base, st)
    requires p in ExpectedOriginals(st)
    ensures p !in ReplacedOriginals(env, base.records - st.tombstones, st)
  {
    var f :| f in st.records && Claims(st, f, p);
    forall g | g in st.records && Repaths(env, base.records - st.tombstones, st, g)
      ensures base.records[env.nameOf(st.records[g].id)].managedPath != p
    {
      var name := env.nameOf(st.records[g].id);
      assert ManagedAt(base.records, name);
      assert name == g;
    }
  }

  /** The originals of the new tree, path by path. */
  lemma AppliedOriginalAt(env: Env, base: Tree, st: Staging, p: Path)
    requires WellFormed(env, base, st)
    ensures var tree := Applied(env, base, st);
      if Publishable(st, p) then
        && p in tree.originals
        && tree.originals[p] == Chosen(env, ApplyTombstones(base, st.tombstones).originals, st, ExpectedDigests(st), p)
      else
        && (p in tree.originals <==> && p in base.originals && p !in TombstonedOriginals(base, st.tombstones)
                                     && p !in ReplacedOriginals(env, base.records - st.tombstones, st))
        && (p in tree.originals ==> tree.originals[p] == base.originals[p])
  {
    if Publishable(st, p) {
      ClaimedPathsAreNotReplaced(env, base, st, p);
    }
  }

  /** A published original hashes to what its record says. */
  lemma PublishedMatches(env: Env, base: Tree, st: Staging, f: FileName)
    requires WellFormed(env, base, st) && Accepts(env, base, st)
    requires ManagedAt(st.records, f) && Publishable(st, st.records[f].managedPath)
    ensures FileMatches(env, Applied(env, base, st).originals, st.records[f].managedPath, st.records[f].fingerprint.digest)
  {
    var p := st.records[f].managedPath;
    AppliedOriginalAt(env, base, st, p);
    assert Claims(st, f, p);
    assert ExpectedDigests(st)[p] == st.records[f].fingerprint.digest;
  }

  /** An accepted commit overwrites no original that was changed by others. */
  lemma ForeignOriginalsStay(env: Env, base: Tree, st: Staging)
    requires WellFormed(env, base, st) && Accepts(env, base, st)
    ensures NothingForeignReplaced(env, base, st.tombstones, Applied(env, base, st))
  {
    hide Applied, Accepts, ReplacedOriginals, ExpectedDigests, Publishable, WellFormed;
    var tree := Applied(env, base, st);
    forall p | p in base.originals && p in tree.originals && base.originals[p] != tree.originals[p] && p !in TombstonedOriginals(base, st.tombstones)
      ensures exists f :: f in base.records && base.records[f].managedPath == p && env.hash(base.originals[p]) == base.records[f].fingerprint.digest
    {
      AppliedOriginalAt(env, base, st, p);
      PublishedOver(env, base, st, p);
    }
  }

  /**
   * Where a staged managed record finds its original. Staged with it: the staged bytes are what it says, and
   * where they go nothing is in the way, and nothing is there but those bytes or the committed ones.
   * Staged without it: only a directory is there, or its committed record has the same path and the
   * original is in the checkout, and is what the new record says if that differs from the committed one.
   */
  ghost predicate Backed(env: Env, base: Tree, st: Staging, f: FileName)
    requires f in st.records
  {
    var r, p := st.records[f], st.records[f].managedPath;
    if p in st.originals then
      && r.fingerprint.digest != "" && env.hash(st.originals[p]) == r.fingerprint.digest
      && (forall q | q in base.originals && !Buried(base, st, q) :: !Beneath(q, p) && !Beneath(p, q))
      && (p in base.originals && !Buried(base, st, p) ==>
            || env.hash(base.originals[p]) == r.fingerprint.digest
            || (f in base.records && base.records[f].managedPath == p && env.hash(base.originals[p]) == base.records[f].fingerprint.digest))
    else
      || (exists q | q in st.originals :: Beneath(p, q))
      || (&& f in base.records && base.records[f].storage == Managed && base.records[f].managedPath == p
          && (p in base.originals || exists q | q in base.originals :: Beneath(p, q))
          && (base.records[f].fingerprint == r.fingerprint || (p in base.originals && env.hash(base.originals[p]) == r.fingerprint.digest)))
  }

  /** The original at `p` goes with a tombstoned record. */
  ghost predicate Buried(base: Tree, st: Staging, p: Path) {
    exists t :: t in st.tombstones && t in base.records && base.records[t].storage == Managed && base.records[t].managedPath == p
  }

  /** Something is staged, and every managed record of it finds its original. */
  ghost predicate AllBacked(env: Env, base: Tree, st: Staging) {
    && (st.records != map[] || st.tombstones != {})
    && forall f | f in st.records && st.records[f].storage == Managed :: Backed(env, base, st, f)
  }

  /** What a commit asks of its staging area, spelled out. */
  lemma AcceptedExactlyWhen(env: Env, base: Tree, st: Staging)
    requires WellFormed(env, base, st) && st.originals == ReferencedOriginals(st)
    ensures Accepts(env, base, st) <==> AllBacked(env, base, st)
  {
    hide Accepts, Backed, RecordValid, MayPublish, ExpectedDigests, PreviousDigests, WellFormed, ReferencedOriginals, ApplyTombstones;
    AcceptsSays(env, base, st);
    forall f | f in st.records
      ensures ManagedAt(st.records, f) ==> (Backed(env, base, st, f) <==>
        RecordValid(env, base, st, f) && (st.records[f].managedPath in st.originals ==> Publishes(env, base, st, st.records[f].managedPath)))
      ensures !ManagedAt(st.records, f) ==> RecordValid(env, base, st, f)
    {
      if ManagedAt(st.records, f) { BackedMeans(env, base, st, f); } else { UnmanagedIsValid(env, base, st, f); }
    }
    forall p | p in st.originals
      ensures exists f :: ManagedAt(st.records, f) && st.records[f].managedPath == p
    {
      ClaimantOf(st, p);
    }
  }

  lemma ClaimantOf(st: Staging, p: Path)
    requires p in st.originals && st.originals == ReferencedOriginals(st)
    ensures exists f :: ManagedAt(st.records, f) && st.records[f].managedPath == p
  {
    assert p in ReferencedOriginals(st);
  }

  lemma UnmanagedIsValid(env: Env, base: Tree, st: Staging, f: FileName)
    requires f in st.records && !ManagedAt(st.records, f)
    ensures RecordValid(env, base, st, f)
  {
  }

  ghost predicate Publishes(env: Env, base: Tree, st: Staging, p: Path) {
    MayPublish(env, ApplyTombstones(base, st.tombstones).originals, st, ExpectedDigests(st), PreviousDigests(env, base, st), p)
  }

  lemma AcceptsSays(env: Env, base: Tree, st: Staging)
    requires st.originals == ReferencedOriginals(st)
    ensures Accepts(env, base, st) <==>
      && (st.records != map[] || st.tombstones != {})
      && (forall f | f in st.records :: RecordValid(env, base, st, f))
      && forall p | p in st.originals :: Publishes(env, base, st, p)
  {
    hide RecordValid, MayPublish, ExpectedDigests, PreviousDigests;
    assert st.records.Keys == {} <==> st.records == map[];
    forall p | p in st.originals ensures Publishable(st, p) {
      assert p in ReferencedOriginals(st);
    }
  }

  lemma BackedMeans(env: Env, base: Tree, st: Staging, f: FileName)
    requires WellFormed(env, base, st) && ManagedAt(st.records, f)
    ensures Backed(env, base, st, f) <==>
      RecordValid(env, base, st, f) && (st.records[f].managedPath in st.originals ==> Publishes(env, base, st, st.records[f].managedPath))
  {
    hide ExpectedDigests, PreviousDigests, Beneath;
    var p := st.records[f].managedPath;
    PathIsUsable(env, base, st, f);
    assert Claims(st, f, p) && env.nameOf(st.records[f].id) == f;
    DigestOfClaim(st, f, p);
    PreviousOfClaim(env, base, st, f, p);
    assert forall q :: Buried(base, st, q) <==> q in TombstonedOriginals(base, st.tombstones);
  }

  lemma PreviousOfClaim(env: Env, base: Tree, st: Staging, f: FileName, p: Path)
    requires Claims(st, f, p) && OneOwner(st.records, st.records) && env.nameOf(st.records[f].id) == f
    ensures p in PreviousDigests(env, base, st) <==> f in base.records && base.records[f].managedPath == p
    ensures p in PreviousDigests(env, base, st) ==> PreviousDigests(env, base, st)[p] == base.records[f].fingerprint.digest
  {
  }

  /** Where other bytes are published over an original, it was the committed one. */
  lemma PublishedOver(env: Env, base: Tree, st: Staging, p: Path)
    requires Accepts(env, base, st) && Publishable(st, p) && p in base.originals && p !in TombstonedOriginals(base, st.tombstones)
    requires Chosen(env, ApplyTombstones(base, st.tombstones).originals, st, ExpectedDigests(st), p) != base.originals[p]
    ensures exists f :: f in base.records && base.records[f].managedPath == p && env.hash(base.originals[p]) == base.records[f].fingerprint.digest
  {
    hide ExpectedDigests, FileFits, RecordValid;
    assert MayPublish(env, ApplyTombstones(base, st.tombstones).originals, st, ExpectedDigests(st), PreviousDigests(env, base, st), p);
    assert p in PreviousDigests(env, base, st);
    var f :| OwnsOriginal(env, base, st, f, p) && PreviousDigests(env, base, st)[p] == base.records[env.nameOf(st.records[f].id)].fingerprint.digest;
  }

  /** The original of a record that is neither tombstoned nor claimed by another stays put. */
  lemma UntouchedOriginalStays(env: Env, base: Tree, st: Staging, f: FileName)
    requires WellFormed(env, base, st)
    requires ManagedAt(base.records, f) && f !in st.tombstones
    requires !Publishable(st, base.records[f].managedPath)
    requires ManagedAt(st.records, f) ==> st.records[f].managedPath == base.records[f].managedPath
    requires base.records[f].managedPath in base.originals
    ensures var p := base.records[f].managedPath; var tree := Applied(env, base, st);
      p in tree.originals && tree.originals[p] == base.originals[p]
  {
    hide Applied, Publishable, TombstonedOriginals, ReplacedOriginals, WellFormed;
    AppliedOriginalAt(env, base, st, base.records[f].managedPath);
    KeptIsNotTombstoned(env, base, st, f);
    KeptIsNotReplaced(env, base, st, f);
  }

  lemma KeptIsNotTombstoned(env: Env, base: Tree, st: Staging, f: FileName)
    requires WellFormed(env, base, st) && ManagedAt(base.records, f) && f !in st.tombstones
    ensures base.records[f].managedPath !in TombstonedOriginals(base, st.tombstones)
  {
  }

  lemma KeptIsNotReplaced(env: Env, base: Tree, st: Staging, f: FileName)
    requires WellFormed(env, base, st) && ManagedAt(base.records, f) && f !in st.tombstones
    requires ManagedAt(st.records, f) ==> st.records[f].managedPath == base.records[f].managedPath
    ensures base.records[f].managedPath !in ReplacedOriginals(env, base.records - st.tombstones, st)
  {
  }

  /** A path outside the declared edits holds its committed bytes when the commit starts. */
  lemma UneditedOriginal(env: Env, committed: Tree, base: Tree, st: Staging, f: FileName)
    requires EditsDeclared(env, committed, base, st) && WellFormed(env, base, st)
    requires ManagedAt(base.records, f) && Matched(env, committed)
    requires f in st.records ==> !InPlaceEdit(env, base, st, f)
    ensures FileMatches(env, base.originals, base.records[f].managedPath, base.records[f].fingerprint.digest)
  {
    var p := base.records[f].managedPath;
    assert FileMatches(env, committed.originals, p, committed.records[f].fingerprint.digest);
    forall g | g in st.records && InPlaceEdit(env, base, st, g) && st.records[g].managedPath == p ensures g == f {
    }
  }

  /** The original that an accepted record keeps is a file. */
  lemma KeptOriginalIsThere(env: Env, committed: Tree, base: Tree, st: Staging, f: FileName)
    requires EditsDeclared(env, committed, base, st) && WellFormed(env, base, st) && Matched(env, committed)
    requires ManagedAt(st.records, f) && RecordValid(env, base, st, f) && !FileExists(st.originals, st.records[f].managedPath)
    ensures ManagedAt(base.records, f) && base.records[f].managedPath == st.records[f].managedPath
    ensures FileMatches(env, base.originals, st.records[f].managedPath, st.records[f].fingerprint.digest)
  {
    hide IsDirectory, EditsDeclared;
    assert KeepsOriginal(env, base, st.records[f]);
    if !InPlaceEdit(env, base, st, f) {
      UneditedOriginal(env, committed, base, st, f);
    }
  }

  /** The new tree's record `f` has its original, when `f` was staged and does not lose it. */
  lemma StagedRecordMatches(env: Env, committed: Tree, base: Tree, st: Staging, f: FileName)
    requires EditsDeclared(env, committed, base, st) && WellFormed(env, base, st) && Accepts(env, base, st)
    requires ManagedAt(st.records, f) && Matched(env, committed)
    requires !LosesOriginal(st, f)
    ensures FileMatches(env, Applied(env, base, st).originals, st.records[f].managedPath, st.records[f].fingerprint.digest)
  {
    hide IsDirectory, Applied, WellFormed, EditsDeclared, Matched;
    var p := st.records[f].managedPath;
    PathIsUsable(env, base, st, f);
    assert Claims(st, f, p);
    if p in st.originals {
      PublishedMatches(env, base, st, f);
    } else {
      assert RecordValid(env, base, st, f);
      KeptOriginalIsThere(env, committed, base, st, f);
      UntouchedOriginalStays(env, base, st, f);
    }
  }

  lemma PathIsUsable(env: Env, base: Tree, st: Staging, f: FileName)
    requires WellFormed(env, base, st) && ManagedAt(st.records, f)
    ensures st.records[f].managedPath != "" && !IsPartial(st.records[f].managedPath)
  {
  }

  /** The new tree's record `f` has its original, when `f` was committed before and left alone. */
  lemma KeptRecordMatches(env: Env, committed: Tree, base: Tree, st: Staging, f: FileName)
    requires EditsDeclared(env, committed, base, st) && WellFormed(env, base, st)
    requires ManagedAt(base.records, f) && f !in st.records && f !in st.tombstones && Matched(env, committed)
    ensures FileMatches(env, Applied(env, base, st).originals, base.records[f].managedPath, base.records[f].fingerprint.digest)
  {
    UneditedOriginal(env, committed, base, st, f);
    UntouchedOriginalStays(env, base, st, f);
  }

  /**
   * An accepted commit leaves every record with its original exactly when no managed record was
   * staged, without its original, over its own tombstone or in place of a directory.
   */
  lemma OriginalsMatchExactlyWhen(env: Env, committed: Tree, base: Tree, st: Staging)
    requires Matched(env, committed) && EditsDeclared(env, committed, base, st)
    requires WellFormed(env, base, st) && Accepts(env, base, st) && st.originals == ReferencedOriginals(st)
    ensures Matched(env, Applied(env, base, st)) <==> forall f | f in st.records :: !LosesOriginal(st, f)
  {
    hide LosesOriginal, Applied, WellFormed, Accepts, EditsDeclared, ReferencedOriginals;
    var tree := Applied(env, base, st);
    AppliedRecords(env, base, st);
    if forall f | f in st.records :: !LosesOriginal(st, f) {
      forall f | ManagedAt(tree.records, f)
        ensures FileMatches(env, tree.originals, tree.records[f].managedPath, tree.records[f].fingerprint.digest)
      {
        if f in st.records {
          StagedRecordMatches(env, committed, base, st, f);
        } else {
          KeptRecordMatches(env, committed, base, st, f);
        }
      }
    } else {
      var f :| f in st.records && LosesOriginal(st, f);
      OriginalIsLost(env, base, st, f);
      LostIsManaged(st, f);
      assert ManagedAt(tree.records, f);
    }
  }

  lemma LostIsManaged(st: Staging, f: FileName)
    requires LosesOriginal(st, f)
    ensures ManagedAt(st.records, f) && st.records[f].managedPath !in st.originals
  {
  }

  lemma OriginalIsLost(env: Env, base: Tree, st: Staging, f: FileName)
    requires WellFormed(env, base, st) && Accepts(env, base, st) && st.originals == ReferencedOriginals(st)
    requires f in st.records && LosesOriginal(st, f)
    ensures st.records[f].managedPath !in Applied(env, base, st).originals
  {
    hide Applied, Accepts, ReplacedOriginals, ReferencedOriginals;
    var p := st.records[f].managedPath;
    AppliedOriginalAt(env, base, st, p);
    PathIsUsable(env, base, st, f);
    if IsDirectory(st.originals, p) {
      var q :| q in st.originals && Beneath(p, q);
      PublishedFits(env, base, st, q);
    } else {
      AcceptedRecord(env, base, st, f);
      assert base.records[f].managedPath in TombstonedOriginals(base, st.tombstones);
    }
  }

  lemma AcceptedRecord(env: Env, base: Tree, st: Staging, f: FileName)
    requires Accepts(env, base, st) && f in st.records
    ensures RecordValid(env, base, st, f)
  {
  }

  /** Where an original is published nothing is in its way. */
  lemma PublishedFits(env: Env, base: Tree, st: Staging, q: Path)
    requires Accepts(env, base, st) && q in st.originals && st.originals == ReferencedOriginals(st)
    ensures FileFits(ApplyTombstones(base, st.tombstones).originals, q)
  {
    hide ExpectedDigests, PreviousDigests, ApplyTombstones, MayReplace, Publishable;
    assert q in ReferencedOriginals(st);
    assert MayPublish(env, ApplyTombstones(base, st.tombstones).originals, st, ExpectedDigests(st), PreviousDigests(env, base, st), q);
  }

  /** After an accepted commit, as before it, no original lies below another. */
  lemma AppliedStaysNotNested(env: Env, base: Tree, st: Staging)
    requires WellFormed(env, base, st) && Accepts(env, base, st) && st.originals == ReferencedOriginals(st)
    requires NotNested(base.originals.Keys) && NotNested(st.originals.Keys)
    ensures NotNested(Applied(env, base, st).originals.Keys)
  {
    hide Applied, Accepts, WellFormed, Beneath, ReferencedOriginals, TombstonedOriginals;
    var tree := Applied(env, base, st);
    forall p, q | p in tree.originals && q in tree.originals
      ensures !Beneath(p, q)
    {
      WhereFrom(env, base, st, p);
      WhereFrom(env, base, st, q);
      if p in st.originals { StillFits(env, base, st, p); }
      if q in st.originals { StillFits(env, base, st, q); }
    }
  }

  /** Before an accepted commit every record has its original, also those that are edited in place. */
  lemma OriginalIsThere(env: Env, committed: Tree, base: Tree, st: Staging, f: FileName)
    requires Matched(env, committed) && EditsDeclared(env, committed, base, st)
    requires WellFormed(env, base, st) && Accepts(env, base, st) && ManagedAt(base.records, f)
    ensures base.records[f].managedPath in base.originals
  {
    hide Accepts;
    if f in st.records && InPlaceEdit(env, base, st, f) {
      AcceptedRecord(env, base, st, f);
    } else {
      UneditedOriginal(env, committed, base, st, f);
    }
  }

  lemma NoNewFiles(env: Env, committed: Tree, base: Tree, st: Staging)
    requires Matched(env, committed) && EditsDeclared(env, committed, base, st)
    ensures base.originals.Keys <= committed.originals.Keys
  {
    hide IsDirectory;
  }

  /** What an accepted commit removes or replaces are files, where every record has its original. */
  lemma NoDirectoryIsRemoved(env: Env, committed: Tree, base: Tree, st: Staging)
    requires Matched(env, committed) && EditsDeclared(env, committed, base, st) && NotNested(committed.originals.Keys)
    requires WellFormed(env, base, st) && Accepts(env, base, st) && st.originals == ReferencedOriginals(st)
    ensures Removable(env, base, st)
  {
    hide Accepts, EditsDeclared, Matched, ReferencedOriginals, Beneath, Claims;
    NoNewFiles(env, committed, base, st);
    forall f | f in base.records && ManagedAt(base.records, f)
      ensures NoDirectory(base.originals.Keys, base.records[f].managedPath)
      ensures f !in st.tombstones ==> NoDirectory(base.originals.Keys + st.originals.Keys, base.records[f].managedPath)
    {
      OriginalIsThere(env, committed, base, st, f);
      if f !in st.tombstones {
        KeptIsNotTombstoned(env, base, st, f);
        forall q | q in st.originals ensures !Beneath(base.records[f].managedPath, q) {
          PublishedFits(env, base, st, q);
        }
      }
    }
  }

  /** Naming, usable paths and single ownership survive a commit, so the next one can rely on them. */
  lemma AppliedStaysWellFormed(env: Env, base: Tree, st: Staging)
    requires WellFormed(env, base, st)
    ensures WellFormed(env, Applied(env, base, st), EMPTY_STAGING)
  {
    hide Applied, WellFormed;
    assert PartOf(EMPTY_STAGING, st);
    PartIsWellFormed(env, base, st, EMPTY_STAGING);
  }

  lemma MergedRecordsStayWellFormed(env: Env, a: map<FileName, Record>, b: map<FileName, Record>, gone: set<FileName>)
    requires Named(env, a) && Named(env, b) && UsablePaths(a) && UsablePaths(b)
    requires OneOwner(a, a) && OneOwner(a, b) && OneOwner(b, b)
    ensures Named(env, a - gone + b) && UsablePaths(a - gone + b) && OneOwner(a - gone + b, a - gone + b)
  {
    var merged := a - gone + b;
    forall f, g | ManagedAt(merged, f) && ManagedAt(merged, g) && merged[f].managedPath == merged[g].managedPath
      ensures f == g
    {
      if f in b {
        if g in b { assert ManagedAt(b, f) && ManagedAt(b, g); } else { assert ManagedAt(b, f) && ManagedAt(a, g); }
      } else {
        if g in b { assert ManagedAt(a, f) && ManagedAt(b, g); } else { assert ManagedAt(a, f) && ManagedAt(a, g); }
      }
    }
  }

  // ----- replaying -----

  ghost predicate CollisionFree(env: Env) {
    forall a, b :: env.hash(a) == env.hash(b) ==> a == b
  }

  /** Replaying touches no tombstone that was restaged, or replays all of it. */
  ghost predicate ReplaySafe(env: Env, st: Staging, part: Staging) {
    PartOf(part, st) && (part.tombstones !! st.records.Keys || (part == st && CollisionFree(env)))
  }

  lemma PartIsWellFormed(env: Env, base: Tree, st: Staging, part: Staging)
    requires WellFormed(env, base, st) && PartOf(part, st)
    ensures WellFormed(env, Applied(env, base, st), part)
  {
    hide Applied;
    MergedRecordsStayWellFormed(env, base.records, st.records, st.tombstones);
    AppliedRecords(env, base, st);
    var records := Applied(env, base, st).records;
    assert forall f | f in part.records :: f in records && records[f] == part.records[f];
  }

  lemma NothingIsReplacedTwice(env: Env, base: Tree, st: Staging, part: Staging)
    requires WellFormed(env, base, st) && PartOf(part, st)
    ensures ReplacedOriginals(env, Applied(env, base, st).records - part.tombstones, part) == {}
  {
    var records := Applied(env, base, st).records - part.tombstones;
    forall f | f in part.records && Repaths(env, records, part, f)
      ensures false
    {
    }
  }

  /** A staged path's expected digest is its record's; a part of the staging agrees with the whole. */
  lemma DigestOfClaim(st: Staging, f: FileName, p: Path)
    requires Claims(st, f, p) && OneOwner(st.records, st.records)
    ensures p in ExpectedDigests(st) && ExpectedDigests(st)[p] == st.records[f].fingerprint.digest
  {
  }

  lemma PartPublishes(st: Staging, part: Staging, p: Path) returns (f: FileName)
    requires PartOf(part, st) && Publishable(part, p) && OneOwner(st.records, st.records)
    ensures f in part.records && Claims(part, f, p) && Claims(st, f, p) && Publishable(st, p)
    ensures ManagedAt(st.records, f) && st.records[f].managedPath == p
    ensures p in ExpectedDigests(part) && ExpectedDigests(part)[p] == st.records[f].fingerprint.digest
    ensures p in ExpectedDigests(st) && ExpectedDigests(st)[p] == st.records[f].fingerprint.digest
  {
    f :| f in part.records && Claims(part, f, p);
    assert part.records[f] == st.records[f];
    assert Claims(part, f, p);
    assert ManagedAt(part.records, f);
    assert ManagedAt(st.records, f);
    DigestOfClaim(st, f, p);
    assert OneOwner(part.records, part.records);
    DigestOfClaim(part, f, p);
  }

  lemma NothingTombstonedTwice(env: Env, base: Tree, st: Staging, part: Staging)
    requires part.tombstones <= st.tombstones && part.tombstones !! st.records.Keys
    ensures TombstonedOriginals(Applied(env, base, st), part.tombstones) == {}
  {
  }

  /** A path published again keeps the content it was given the first time. */
  lemma RepublishedOriginal(env: Env, base: Tree, st: Staging, part: Staging, p: Path)
    requires WellFormed(env, base, st) && Accepts(env, base, st) && ReplaySafe(env, st, part)
    requires Publishable(part, p)
    ensures var tree := Applied(env, base, st);
      && p in tree.originals
      && Chosen(env, ApplyTombstones(tree, part.tombstones).originals, part, ExpectedDigests(part), p) == tree.originals[p]
  {
    hide Applied, Publishable, RecordValid, TombstonedOriginals, ExpectedDigests, PreviousDigests, Claims;
    var tree := Applied(env, base, st);
    var f := PartPublishes(st, part, p);
    PublishedMatches(env, base, st, f);
    if part.tombstones !! st.records.Keys {
      NothingTombstonedTwice(env, base, st, part);
    } else {
      assert MayPublish(env, ApplyTombstones(base, st.tombstones).originals, st, ExpectedDigests(st), PreviousDigests(env, base, st), p);
      assert env.hash(st.originals[p]) == env.hash(tree.originals[p]);
    }
  }

  lemma UnpublishedOriginal(env: Env, base: Tree, st: Staging, part: Staging, p: Path)
    requires WellFormed(env, base, st) && Accepts(env, base, st) && ReplaySafe(env, st, part)
    requires forall f | f in st.records :: !LosesOriginal(st, f)
    requires !Publishable(part, p)
    ensures p !in TombstonedOriginals(Applied(env, base, st), part.tombstones)
  {
    var tree := Applied(env, base, st);
    forall t | t in part.tombstones && ManagedAt(tree.records, t)
      ensures tree.records[t].managedPath != p
    {
      assert t in st.records && part == st;
      assert Claims(st, t, st.records[t].managedPath);
      assert !LosesOriginal(st, t);
    }
  }

  /**
   * Applying staged work again, whole or whatever an interrupted clear left of it, changes
   * nothing: the retry after a lost acknowledgement commits the same tree.
   */
  lemma ReplayChangesNothing(env: Env, base: Tree, st: Staging, part: Staging)
    requires WellFormed(env, base, st) && Accepts(env, base, st) && ReplaySafe(env, st, part)
    requires forall f | f in st.records :: !LosesOriginal(st, f)
    ensures Applied(env, Applied(env, base, st), part) == Applied(env, base, st)
  {
    hide Applied, WellFormed, Accepts, PartOf, Publishable, TombstonedOriginals, ReplacedOriginals, ExpectedDigests, Chosen;
    var tree := Applied(env, base, st);
    var again := Applied(env, tree, part);
    PartIsWellFormed(env, base, st, part);
    NothingIsReplacedTwice(env, base, st, part);
    forall p
      ensures p in again.originals <==> p in tree.originals
      ensures p in tree.originals ==> again.originals[p] == tree.originals[p]
    {
      AppliedOriginalAt(env, tree, part, p);
      if Publishable(part, p) {
        RepublishedOriginal(env, base, st, part, p);
      } else {
        UnpublishedOriginal(env, base, st, part, p);
      }
    }
    assert again.originals == tree.originals;
    ReplayedRecords(env, base, st, part);
  }

  /**
   * Whatever an interrupted clear leaves of accepted staging, applying it again is harmless,
   * exactly when no record was staged beside its own tombstone.
   */
  lemma ReplayIsHarmlessExactlyWhen(env: Env, base: Tree, st: Staging)
    requires WellFormed(env, base, st) && Accepts(env, base, st)
    requires forall f | f in st.records :: !LosesOriginal(st, f)
    ensures (forall part | PartOf(part, st) :: Applied(env, Applied(env, base, st), part) == Applied(env, base, st))
       <==> st.tombstones !! st.records.Keys
  {
    hide Applied, WellFormed, Accepts, LosesOriginal;
    if st.tombstones !! st.records.Keys {
      forall part | PartOf(part, st)
        ensures Applied(env, Applied(env, base, st), part) == Applied(env, base, st)
      {
        ReplayChangesNothing(env, base, st, part);
      }
    } else {
      var t :| t in st.tombstones && t in st.records;
      LoneTombstoneDeletes(env, base, st, t);
    }
  }

  /** A tombstone that outlives the record staged beside it deletes that record. */
  lemma LoneTombstoneDeletes(env: Env, base: Tree, st: Staging, t: FileName)
    requires t in st.tombstones && t in st.records
    ensures var part := Staging(map[], {t}, map[]);
      && PartOf(part, st)
      && t in Applied(env, base, st).records
      && t !in Applied(env, Applied(env, base, st), part).records
  {
  }

  lemma ReplayedRecords(env: Env, base: Tree, st: Staging, part: Staging)
    requires ReplaySafe(env, st, part)
    ensures Applied(env, Applied(env, base, st), part).records == Applied(env, base, st).records
  {
    hide Applied;
    AppliedRecords(env, base, st);
    AppliedRecords(env, Applied(env, base, st), part);
  }

  lemma AppliedRecords(env: Env, base: Tree, st: Staging)
    ensures Applied(env, base, st).records == base.records - st.tombstones + st.records
  {
  }

  /** The retry is also accepted: nothing it validates was lost with the part that was cleared. */
  lemma ReplayIsAccepted(env: Env, committed: Tree, base: Tree, st: Staging, part: Staging)
    requires Matched(env, committed) && EditsDeclared(env, committed, base, st)
    requires WellFormed(env, base, st) && Accepts(env, base, st) && ReplaySafe(env, st, part)
    requires NotNested(st.originals.Keys) && st.originals == ReferencedOriginals(st)
    requires forall f | f in st.records :: !LosesOriginal(st, f)
    requires part.records.Keys != {} || part.tombstones != {}
    ensures Accepts(env, Applied(env, base, st), part)
  {
    hide Applied, Publishable, ExpectedDigests, PreviousDigests, RecordValid, NotNested, FileFits, ReferencedOriginals;
    var tree := Applied(env, base, st);
    forall f | f in part.records
      ensures RecordValid(env, tree, part, f)
    {
      ReplayedRecordIsValid(env, committed, base, st, part, f);
    }
    var files := ApplyTombstones(tree, part.tombstones).originals;
    forall p | p in part.originals && Publishable(part, p)
      ensures MayPublish(env, files, part, ExpectedDigests(part), PreviousDigests(env, tree, part), p)
    {
      var f := PartPublishes(st, part, p);
      PublishedMatches(env, base, st, f);
      assert MayPublish(env, ApplyTombstones(base, st.tombstones).originals, st, ExpectedDigests(st), PreviousDigests(env, base, st), p);
      StillFits(env, base, st, p);
      FitsAmongFewer(tree.originals, files, p);
    }
  }

  /** What was published fits among all that is there afterwards. */
  lemma StillFits(env: Env, base: Tree, st: Staging, p: Path)
    requires WellFormed(env, base, st) && Accepts(env, base, st) && NotNested(st.originals.Keys)
    requires p in st.originals && st.originals == ReferencedOriginals(st)
    ensures FileFits(Applied(env, base, st).originals, p)
  {
    hide Applied, Accepts, WellFormed, Beneath, ApplyTombstones, ReferencedOriginals;
    PublishedFits(env, base, st, p);
    forall q | q in Applied(env, base, st).originals
      ensures !Beneath(q, p) && !Beneath(p, q)
    {
      WhereFrom(env, base, st, q);
    }
  }

  lemma WhereFrom(env: Env, base: Tree, st: Staging, q: Path)
    requires WellFormed(env, base, st) && q in Applied(env, base, st).originals
    ensures q in st.originals || q in ApplyTombstones(base, st.tombstones).originals
  {
    hide Applied, WellFormed, ReplacedOriginals, TombstonedOriginals;
    AppliedOriginalAt(env, base, st, q);
  }

  lemma FitsAmongFewer(files: map<Path, Bytes>, fewer: map<Path, Bytes>, p: Path)
    requires FileFits(files, p) && fewer.Keys <= files.Keys
    ensures FileFits(fewer, p)
  {
  }

  lemma ReplayedRecordIsValid(env: Env, committed: Tree, base: Tree, st: Staging, part: Staging, f: FileName)
    requires Matched(env, committed) && EditsDeclared(env, committed, base, st)
    requires WellFormed(env, base, st) && Accepts(env, base, st) && PartOf(part, st)
    requires f in part.records && !LosesOriginal(st, f)
    ensures RecordValid(env, Applied(env, base, st), part, f)
  {
    if ManagedAt(st.records, f) {
      StagedRecordMatches(env, committed, base, st, f);
    }
  }
}
