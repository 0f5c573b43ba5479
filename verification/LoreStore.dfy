/**
 * The durable store: a checkout, a staging area and the committed revision. Every disk or
 * LORE operation may succeed, fail, or be the last thing the process does.
 */
module LoreStore {
  import opened Media
  import opened StagingLaws
  import opened CommitLaws

  datatype Fault = NoFault | OpFails | Crash

  /** How far a phase of a commit got: to its end, to a failed operation, or to a crash. */
  datatype Progress = Done | Failed | Died

  datatype CommitOutcome =
    | Committed
    | Rejected          // nothing was committed; the caller sees an error
    | FlushFailed       // the revision was committed, but the caller sees an error
    | Crashed

  /** How the steps behind an outcome ended. */
  function Ending(outcome: CommitOutcome): Progress {
    match outcome
    case Committed => Done
    case Crashed => Died
    case _ => Failed
  }

  /** Steps `from` to `to`: each of them worked, or none was a crash, or the last one was the only crash. */
  ghost predicate Ran(plan: nat -> Fault, from: nat, to: nat, p: Progress) {
    from <= to &&
    match p
    case Done => forall n: nat | from <= n < to :: plan(n) == NoFault
    case Failed => forall n: nat | from <= n < to :: plan(n) != Crash
    case Died => from < to && plan(to - 1) == Crash && forall n: nat | from <= n < to - 1 :: plan(n) != Crash
  }

  /** A commit succeeds only if all its steps worked, but for the last one, which clears the staging area. */
  ghost predicate RanCommit(plan: nat -> Fault, from: nat, to: nat, outcome: CommitOutcome) {
    if outcome == Committed then from < to && Ran(plan, from, to - 1, Done) && plan(to - 1) != Crash
    else Ran(plan, from, to, Ending(outcome))
  }

  lemma NothingRan(plan: nat -> Fault, from: nat)
    ensures Ran(plan, from, from, Done) && RanCommit(plan, from, from, Rejected)
  {
  }

  /** The steps of a commit up to `mid` worked; the rest ended as the outcome says. */
  lemma RanToOutcome(plan: nat -> Fault, from: nat, mid: nat, to: nat, outcome: CommitOutcome)
    requires Ran(plan, from, mid, Done)
    ensures outcome != Committed && Ran(plan, mid, to, Ending(outcome)) ==> RanCommit(plan, from, to, outcome)
    ensures RanCommit(plan, mid, to, outcome) ==> RanCommit(plan, from, to, outcome)
    ensures outcome == Committed && Ran(plan, mid, to, Ending(outcome)) ==> Ran(plan, from, to, Done)
    ensures RanCommit(plan, from, mid, Rejected)
  {
  }

  lemma RanToFailure(plan: nat -> Fault, from: nat, to: nat, p: Progress)
    requires Ran(plan, from, to, p) && p != Done
    ensures RanCommit(plan, from, to, if p == Died then Crashed else Rejected)
  {
  }

  /** Steps that stopped short, followed by the attempt to restore. */
  lemma RanToAbandon(plan: nat -> Fault, from: nat, mid: nat, to: nat, p: Progress)
    requires Ran(plan, from, mid, p)
    requires p == Died ==> mid == to
    ensures p != Died ==> forall q | q != Done && Ran(plan, mid, to, q) :: Ran(plan, from, to, q)
    ensures p == Died ==> Ran(plan, from, to, Died)
  {
  }

  lemma RanOn(plan: nat -> Fault, from: nat, mid: nat, to: nat)
    requires Ran(plan, from, mid, Done) || Ran(plan, from, mid, Failed)
    ensures forall p | Ran(plan, mid, to, p) :: Ran(plan, from, to, if p == Done && !Ran(plan, from, mid, Done) then Failed else p)
    ensures forall outcome | RanCommit(plan, mid, to, outcome) && Ran(plan, from, mid, Done) :: RanCommit(plan, from, to, outcome)
  {
  }

  datatype Verdict = Valid(edited: bool) | MissingOriginal | EditMismatch

  function Cleaned(st: Staging): Staging {
    st.(originals := ReferencedOriginals(st))
  }

  /** Everything a later commit needs is still staged. */
  ghost predicate WorkKept(before: Staging, after: Staging) {
    && after.records == before.records && after.tombstones == before.tombstones
    && ReferencedOriginals(after) == ReferencedOriginals(before)
    && after.originals.Items <= before.originals.Items
  }

  ghost predicate ExpectedFrom(st: Staging, done: set<FileName>, expected: map<Path, Digest>)
    requires done <= st.records.Keys
  {
    && (forall p | p in expected :: exists f | f in done :: Claims(st, f, p) && expected[p] == st.records[f].fingerprint.digest)
    && forall f | f in done && Claims(st, f, st.records[f].managedPath) :: st.records[f].managedPath in expected
  }

  ghost predicate PreviousFrom(env: Env, base: Tree, st: Staging, done: set<FileName>, previous: map<Path, Digest>)
    requires done <= st.records.Keys
  {
    && (forall p | p in previous :: exists f | f in done ::
          OwnsOriginal(env, base, st, f, p) && previous[p] == base.records[env.nameOf(st.records[f].id)].fingerprint.digest)
    && forall f | f in done && OwnsOriginal(env, base, st, f, st.records[f].managedPath) :: st.records[f].managedPath in previous
  }

  lemma NothingCollected(env: Env, base: Tree, st: Staging)
    ensures ExpectedFrom(st, {}, map[]) && PreviousFrom(env, base, st, {}, map[])
  {
  }

  /** One staged record more. */
  lemma CollectOneMore(env: Env, base: Tree, st: Staging, done: set<FileName>, f: FileName,
                       expected: map<Path, Digest>, previous: map<Path, Digest>)
    requires done <= st.records.Keys && f in st.records
    requires ExpectedFrom(st, done, expected) && PreviousFrom(env, base, st, done, previous)
    ensures var r := st.records[f]; var name := env.nameOf(r.id);
      var claims := r.storage == Managed && r.managedPath != "";
      && ExpectedFrom(st, done + {f}, if claims then expected[r.managedPath := r.fingerprint.digest] else expected)
      && PreviousFrom(env, base, st, done + {f},
                      if claims && name in base.records && base.records[name].managedPath == r.managedPath
                      then previous[r.managedPath := base.records[name].fingerprint.digest] else previous)
  {
    hide ExpectedFrom, PreviousFrom;
    ExpectedOneMore(st, done, f, expected);
    PreviousOneMore(env, base, st, done, f, previous);
  }

  lemma ExpectedOneMore(st: Staging, done: set<FileName>, f: FileName, expected: map<Path, Digest>)
    requires done <= st.records.Keys && f in st.records && ExpectedFrom(st, done, expected)
    ensures ExpectedFrom(st, done + {f}, if Claims(st, f, st.records[f].managedPath)
                                         then expected[st.records[f].managedPath := st.records[f].fingerprint.digest] else expected)
  {
  }

  lemma PreviousOneMore(env: Env, base: Tree, st: Staging, done: set<FileName>, f: FileName, previous: map<Path, Digest>)
    requires done <= st.records.Keys && f in st.records && PreviousFrom(env, base, st, done, previous)
    ensures PreviousFrom(env, base, st, done + {f},
                         if OwnsOriginal(env, base, st, f, st.records[f].managedPath)
                         then previous[st.records[f].managedPath := base.records[env.nameOf(st.records[f].id)].fingerprint.digest] else previous)
  {
  }

  lemma ExpectedKeys(st: Staging, expected: map<Path, Digest>)
    requires ExpectedFrom(st, st.records.Keys, expected)
    ensures expected.Keys == ExpectedOriginals(st)
  {
  }

  lemma ExpectedDetermined(st: Staging, expected: map<Path, Digest>)
    requires ExpectedFrom(st, st.records.Keys, expected)
    requires OneOwner(st.records, st.records)
    ensures expected == ExpectedDigests(st)
  {
    assert expected.Keys == ExpectedOriginals(st);
  }

  lemma PreviousDetermined(env: Env, base: Tree, st: Staging, previous: map<Path, Digest>)
    requires PreviousFrom(env, base, st, st.records.Keys, previous)
    requires OneOwner(st.records, st.records)
    ensures previous == PreviousDigests(env, base, st)
  {
    assert previous.Keys == PreviousOriginals(env, base, st);
  }

  lemma CleanedIsCleaned(st: Staging)
    ensures Cleaned(Cleaned(st)) == Cleaned(st)
    ensures WorkKept(st, Cleaned(st)) && PartOf(Cleaned(st), st)
  {
    assert ReferencedOriginals(Cleaned(st)) == ReferencedOriginals(st);
  }

  lemma KeptTrivially(st: Staging)
    ensures WorkKept(st, st) && PartOf(st, st)
  {
  }

  lemma KeptIsPart(before: Staging, after: Staging)
    requires WorkKept(before, after)
    ensures PartOf(after, before)
  {
    forall q | q in after.originals
      ensures q in before.originals && after.originals[q] == before.originals[q]
    {
      assert (q, after.originals[q]) in after.originals.Items;
    }
  }

  lemma PartOfWhole(part: Staging, st: Staging, whole: Staging)
    requires PartOf(part, st) && PartOf(st, whole)
    ensures PartOf(part, whole)
  {
  }

  lemma CleaningKeepsForm(env: Env, base: Tree, st: Staging)
    ensures Workable(env, base, Cleaned(st)) ==> OneOwner(st.records, st.records)
    ensures OneOwner(st.records, st.records) == OneOwner(Cleaned(st).records, Cleaned(st).records)
  {
  }

  lemma AcceptsMeans(env: Env, base: Tree, st: Staging)
    ensures Accepts(env, base, st) <==>
      && (st.records.Keys != {} || st.tombstones != {})
      && (forall f | f in st.records :: RecordValid(env, base, st, f))
      && forall p | p in st.originals && Publishable(st, p) ::
           MayPublish(env, ApplyTombstones(base, st.tombstones).originals, st, ExpectedDigests(st), PreviousDigests(env, base, st), p)
    ensures forall f | f in st.records && !HasOriginal(env, base, st, f) :: !RecordValid(env, base, st, f)
  {
  }

  /** What is accepted of staging is backed, and overwrites nothing foreign. */
  lemma AcceptedOnlyIf(env: Env, base: Tree, st: Staging)
    ensures Workable(env, base, Cleaned(st)) ==> (Accepts(env, base, Cleaned(st)) <==> AllBacked(env, base, Cleaned(st)))
    ensures WellFormed(env, base, st) && Accepts(env, base, Cleaned(st)) ==>
      OneOwner(st.records, st.records) && NothingForeignReplaced(env, base, st.tombstones, Applied(env, base, Cleaned(st)))
  {
    hide Accepts, AllBacked, NothingForeignReplaced, Applied, Removable;
    CleanedIsCleaned(st);
    assert Cleaned(st).originals == ReferencedOriginals(Cleaned(st));
    if WellFormed(env, base, Cleaned(st)) {
      AcceptedExactlyWhen(env, base, Cleaned(st));
      if Accepts(env, base, Cleaned(st)) { ForeignOriginalsStay(env, base, Cleaned(st)); }
    }
  }

  lemma UneditedCheckout(env: Env, committed: Tree)
    ensures forall st :: EditsDeclared(env, committed, committed, st)
  {
  }

  /** Dropping staged originals hides no edit made in place. */
  lemma KeptEditsAreDeclared(env: Env, committed: Tree, base: Tree, st: Staging, after: Staging)
    requires EditsDeclared(env, committed, base, st)
    requires WorkKept(st, after)
    ensures EditsDeclared(env, committed, base, after)
  {
    forall q | q in after.originals
      ensures q in st.originals
    {
      assert (q, after.originals[q]) in after.originals.Items;
    }
    forall f | f in st.records && InPlaceEdit(env, base, st, f)
      ensures InPlaceEdit(env, base, after, f)
    {
    }
  }

  lemma CleaningKeepsEdits(env: Env, committed: Tree, base: Tree, st: Staging)
    requires EditsDeclared(env, committed, base, st)
    ensures EditsDeclared(env, committed, base, Cleaned(st))
  {
    CleanedIsCleaned(st);
    KeptEditsAreDeclared(env, committed, base, st, Cleaned(st));
  }

  /** When no phase touches the originals, the committed ones are still current. */
  lemma OriginalsUntouched(env: Env, committed: Tree, base: Tree, st: Staging)
    requires EditsDeclared(env, committed, base, st)
    ensures Published(env, committed, base, st) == Applied(env, base, st)
  {
    hide Publishable, Repaths, InPlaceEdit, EditsDeclared, ReplacedOriginals, TombstonedOriginals;
    if !TouchesOriginals(env, base, st) {
      NothingEdited(env, committed, base, st);
      NothingBuried(base, st.tombstones);
      NothingRepathed(env, base.records - st.tombstones, st);
      assert (set p | p in st.originals && Publishable(st, p)) == {};
    }
  }

  lemma NothingIsBuried(base: Tree)
    ensures ApplyTombstones(base, {}) == base
  {
    assert TombstonedOriginals(base, {}) == {};
    assert base.records - {} == base.records && base.originals - {} == base.originals;
  }

  lemma NothingBuried(base: Tree, tombstones: set<FileName>)
    requires forall t | t in tombstones :: !ManagedAt(base.records, t)
    ensures TombstonedOriginals(base, tombstones) == {}
  {
  }

  lemma NothingEdited(env: Env, committed: Tree, base: Tree, st: Staging)
    requires EditsDeclared(env, committed, base, st)
    requires forall f | f in st.records :: !InPlaceEdit(env, base, st, f)
    ensures base.originals == committed.originals
  {
  }

  lemma NothingRepathed(env: Env, records: map<FileName, Record>, st: Staging)
    requires forall f | f in st.records :: !Repaths(env, records, st, f)
    ensures ReplacedOriginals(env, records, st) == {}
  {
  }

  /** A path that is no directory among all these is none among some of them. */
  lemma StillNoDirectory(files: map<Path, Bytes>, all: set<Path>, p: Path)
    requires NoDirectory(all, p) && files.Keys <= all
    ensures FileExists(files, p) <==> p in files
  {
  }

  class LoreDurableStore {
    const env: Env
    const plan: nat -> Fault    // what happens to the n-th disk or LORE operation
    var clock: nat
    var isOpen: bool
    var committed: Tree         // the current LORE revision
    var checkout: Tree          // the files under repository/
    var index: Tree             // what LORE has staged for the next revision
    var staging: Staging

    constructor (env: Env, plan: nat -> Fault)
      ensures this.env == env && this.plan == plan && !isOpen
      ensures committed == checkout == index == Tree(map[], map[]) && staging == EMPTY_STAGING
    {
      this.env, this.plan := env, plan;
      clock, isOpen := 0, false;
      committed := Tree(map[], map[]);
      checkout := Tree(map[], map[]);
      index := Tree(map[], map[]);
      staging := EMPTY_STAGING;
    }

    /** No disk or LORE operation from now on fails. */
    ghost predicate Healthy()
      reads `clock
    {
      forall n: nat | clock <= n :: plan(n) == NoFault
    }

    /** A session between commits: nothing is staged in LORE, and edits in place are declared. */
    ghost predicate Ready()
      reads this
    {
      isOpen && index == committed && EditsDeclared(env, committed, checkout, staging)
    }

    method Act() returns (p: Progress)
      modifies `clock
      ensures clock == old(clock) + 1 && Ran(plan, old(clock), clock, p)
      ensures p == Done <==> plan(old(clock)) == NoFault
      ensures old(Healthy()) ==> Healthy() && p == Done
    {
      p := match plan(clock) case NoFault => Done case OpFails => Failed case Crash => Died;
      clock := clock + 1;
    }

    /** LORE's reset: all or nothing when it reports success, anything at all when it does not. */
    method Restore() returns (p: Progress)
      modifies `clock, `checkout, `index
      ensures p == Done ==> checkout == committed && index == committed
      ensures clock == old(clock) + 1 && Ran(plan, old(clock), clock, p)
      ensures old(Healthy()) ==> Healthy() && p == Done
    {
      p := Act();
      if p == Done {
        checkout, index := committed, committed;
      } else {
        checkout, index := *, *;
      }
    }

    /** Opening always restores the checkout, whatever an interrupted commit left there. */
    method Open() returns (ok: bool)
      modifies `clock, `isOpen, `checkout, `index
      ensures old(isOpen) ==> ok && unchanged(this)
      ensures ok == isOpen
      ensures ok && !old(isOpen) ==> checkout == committed && index == committed && Ready()
      ensures old(Healthy()) ==> Healthy() && ok
    {
      if isOpen { return true; }
      var p := Restore();
      isOpen := p == Done;
      ok := isOpen;
    }

    /** The process ends, wherever it was. */
    method Exit()
      modifies `isOpen
      ensures !isOpen
    {
      isOpen := false;
    }

    /** Writes the record file; a tombstone for the same id stays where it is. */
    method Stage(r: Record) returns (p: Progress)
      modifies `clock, `staging
      ensures p == Done ==> isOpen && r.id != ""
      ensures staging == if p == Done then WithRecord(old(staging), r) else old(staging)
      ensures p == Done ==> staging == Staging(old(staging).records[env.nameOf(r.id) := r], old(staging).tombstones, old(staging).originals)
      ensures Ran(plan, old(clock), clock, p)
      ensures old(Healthy()) ==> Healthy() && (p == Done <==> isOpen && r.id != "")
    {
      if !isOpen || r.id == "" { return Failed; }
      p := Act();
      if p == Done {
        staging := WithRecord(staging, r);
      }
    }

    function WithRecord(st: Staging, r: Record): Staging {
      st.(records := st.records[env.nameOf(r.id) := r])
    }

    /** Copies the original in, checks the copy against the fingerprint, then stages the record. */
    method StageOriginal(r: Record, source: Bytes) returns (p: Progress)
      modifies `clock, `staging
      ensures p == Done ==> isOpen && r.id != "" && r.storage == Managed && "originals/" <= r.managedPath && env.inside(r.managedPath)
      ensures p == Done ==> env.hash(source) == r.fingerprint.digest && FileFits(old(staging).originals, r.managedPath)
      ensures p == Done ==>
        staging == WithRecord(old(staging), r).(originals := old(staging).originals[r.managedPath := source])
      ensures NotNested(old(staging).originals.Keys) ==> NotNested(staging.originals.Keys)
      ensures p != Done ==> staging.records == old(staging).records && staging.tombstones == old(staging).tombstones
      ensures p != Done ==> staging.originals - {r.managedPath} == old(staging).originals - {r.managedPath}
      ensures p == Failed ==> staging.originals.Items <= old(staging).originals.Items
      ensures Ran(plan, old(clock), clock, p)
      ensures old(Healthy()) ==> Healthy()
      ensures old(Healthy()) && isOpen && r.id != "" && r.storage == Managed && "originals/" <= r.managedPath && env.inside(r.managedPath)
        ==> (p == Done <==> env.hash(source) == r.fingerprint.digest && FileFits(old(staging).originals, r.managedPath))
    {
      if !isOpen || r.storage != Managed || !env.ValidOriginal(r.managedPath) { return Failed; }
      if !FileFits(staging.originals, r.managedPath) { return Failed; }   // no directory to be made, or one in the way
      p := Act();
      if p != Done { return; }
      staging := staging.(originals := staging.originals[r.managedPath := source]);
      if env.hash(source) != r.fingerprint.digest {
        staging := staging.(originals := staging.originals - {r.managedPath});
        return Failed;
      }
      p := Stage(r);
      if p == Failed {
        staging := staging.(originals := staging.originals - {r.managedPath});
      }
    }

    /** Drops whatever is staged for the id and leaves a tombstone. */
    method Remove(id: Id) returns (p: Progress)
      modifies `clock, `staging
      ensures p == Done ==> isOpen
      ensures staging == if !isOpen then old(staging)
                         else if p == Done then Buried(old(staging), id) else Unstaged(old(staging), id)
      // The record goes with the original it has, if it is a managed one; the tombstone comes last.
      ensures isOpen ==> var f := env.nameOf(id);
        && staging.records == old(staging).records - {f}
        && staging.tombstones == (if p == Done then old(staging).tombstones + {f} else old(staging).tombstones)
        && staging.originals ==
             if f in old(staging).records && old(staging).records[f].storage == Managed
             then old(staging).originals - {old(staging).records[f].managedPath} else old(staging).originals
      ensures Ran(plan, old(clock), clock, p)
      ensures old(Healthy()) ==> Healthy() && (p == Done <==> isOpen)
    {
      if !isOpen { return Failed; }
      staging := Unstaged(staging, id);
      p := Act();
      if p == Done {
        staging := staging.(tombstones := staging.tombstones + {env.nameOf(id)});
      }
    }

    function Unstaged(st: Staging, id: Id): Staging {
      var f := env.nameOf(id);
      st.(records := st.records - {f},
          originals := if ManagedAt(st.records, f) then st.originals - {st.records[f].managedPath} else st.originals)
    }

    function Buried(st: Staging, id: Id): Staging {
      Unstaged(st, id).(tombstones := st.tombstones + {env.nameOf(id)})
    }

    /** Deleting a directory tree stops anywhere when it fails. */
    method ClearStaging() returns (p: Progress)
      modifies `clock, `staging
      ensures if p == Done then staging == EMPTY_STAGING else PartOf(staging, old(staging))
      ensures clock == old(clock) + 1 && Ran(plan, old(clock), clock, p) && (p == Done <==> plan(old(clock)) == NoFault)
      ensures old(Healthy()) ==> Healthy() && p == Done
    {
      p := Act();
      if p == Done {
        staging := EMPTY_STAGING;
      } else {
        var part: Staging := *;
        if PartOf(part, staging) {
          staging := part;
        }
      }
    }

    method DiscardStaged() returns (p: Progress)
      modifies `clock, `staging, `checkout, `index
      ensures p == Done ==> staging == EMPTY_STAGING && checkout == committed && index == committed
      ensures PartOf(staging, old(staging))
      ensures !isOpen ==> p == Failed
      ensures Ran(plan, old(clock), clock, p)
      ensures old(Healthy()) ==> Healthy() && (p == Done <==> isOpen)
    {
      if !isOpen { return Failed; }
      p := ClearStaging();
      if p == Done {
        p := Restore();
      }
    }

    // ----- commit, one phase a method -----

    // One file operation a method: it takes a step, and does nothing if that fails.

    method RemoveStaged(q: Path) returns (p: Progress)
      modifies `clock, `staging
      ensures clock == old(clock) + 1 && Ran(plan, old(clock), clock, p) && (p == Done <==> plan(old(clock)) == NoFault)
      ensures staging == if p == Done then old(staging).(originals := old(staging).originals - {q}) else old(staging)
    {
      p := Act();
      if p == Done {
        staging := staging.(originals := staging.originals - {q});
      }
    }

    /** A directory cannot be removed as a file. */
    method RemoveOriginal(path: Path) returns (p: Progress)
      modifies `clock, `checkout
      ensures clock == old(clock) + 1 && Ran(plan, old(clock), clock, p)
      ensures p == Done <==> plan(old(clock)) == NoFault && path in old(checkout).originals
      ensures checkout == if p == Done then old(checkout).(originals := old(checkout).originals - {path}) else old(checkout)
    {
      p := Act();
      if p == Done {
        if path !in checkout.originals { return Failed; }
        checkout := checkout.(originals := checkout.originals - {path});
      }
    }

    method RemoveRecord(f: FileName) returns (p: Progress)
      modifies `clock, `checkout
      ensures clock == old(clock) + 1 && Ran(plan, old(clock), clock, p) && (p == Done <==> plan(old(clock)) == NoFault)
      ensures checkout == if p == Done then old(checkout).(records := old(checkout).records - {f}) else old(checkout)
    {
      p := Act();
      if p == Done {
        checkout := checkout.(records := checkout.records - {f});
      }
    }

    method CopyRecord(f: FileName) returns (p: Progress)
      requires f in staging.records
      modifies `clock, `checkout
      ensures clock == old(clock) + 1 && Ran(plan, old(clock), clock, p) && (p == Done <==> plan(old(clock)) == NoFault)
      ensures checkout == if p == Done then old(checkout).(records := old(checkout).records[f := staging.records[f]]) else old(checkout)
    {
      p := Act();
      if p == Done {
        checkout := checkout.(records := checkout.records[f := staging.records[f]]);
      }
    }

    /** Removes staged originals that no staged record claims, and half-written ones. */
    method ClearOrphans() returns (p: Progress)
      modifies `clock, `staging
      ensures Ran(plan, old(clock), clock, p)
      ensures WorkKept(old(staging), staging)
      ensures p == Done ==> staging == Cleaned(old(staging))
      ensures p == Done ==> forall q :: q in staging.originals <==>
        && q in old(staging).originals && q != "" && !(exists stem: Path :: q == stem + ".part")
        && exists f | f in staging.records :: staging.records[f].storage == Managed && staging.records[f].managedPath == q
      ensures old(Healthy()) ==> Healthy() && p == Done
    {
      p := Done;
      var todo := staging.originals.Keys;
      while todo != {}
        invariant old(Healthy()) ==> Healthy()
        invariant todo <= old(staging).originals.Keys
        invariant staging.records == old(staging).records && staging.tombstones == old(staging).tombstones
        invariant forall q :: q in staging.originals <==>
                    q in old(staging).originals && (q in todo || Publishable(old(staging), q))
        invariant forall q | q in staging.originals :: staging.originals[q] == old(staging).originals[q]
        invariant p == Done && Ran(plan, old(clock), clock, Done)
      {
        var q :| q in todo;
        todo := todo - {q};
        if !Publishable(staging, q) {
          p := RemoveStaged(q);
          if p != Done {
            KeptWhen(old(staging), staging);
            return;
          }
        }
      }
      KeptWhen(old(staging), staging);
      assert staging.originals == ReferencedOriginals(old(staging));
      forall q | q in old(staging).originals
        ensures Publishable(old(staging), q) <==>
          && q != "" && !(exists stem: Path :: q == stem + ".part")
          && exists f | f in staging.records :: staging.records[f].storage == Managed && staging.records[f].managedPath == q
      {
        PartialExactlyWhen(q);
        ClaimedExactlyWhen(old(staging), q);
      }
    }

    lemma ClaimedExactlyWhen(st: Staging, q: Path)
      ensures q in ExpectedOriginals(st) <==>
        q != "" && exists f | f in st.records :: st.records[f].storage == Managed && st.records[f].managedPath == q
    {
      if f :| f in st.records && q != "" && st.records[f].storage == Managed && st.records[f].managedPath == q {
        assert Claims(st, f, st.records[f].managedPath);
      }
    }

    lemma KeptWhen(before: Staging, after: Staging)
      requires before.records == after.records && before.tombstones == after.tombstones
      requires forall q | q in before.originals && Publishable(before, q) :: q in after.originals
      requires forall q | q in after.originals :: q in before.originals && after.originals[q] == before.originals[q]
      ensures WorkKept(before, after)
    {
      assert ReferencedOriginals(after) == ReferencedOriginals(before);
    }

    /** Checks that every staged managed record has its original; reports an edit made in place. */
    method ValidateRecords() returns (verdict: Verdict)
      ensures verdict.Valid? <==> forall f | f in staging.records :: RecordValid(env, checkout, staging, f)
      ensures verdict.Valid? ==> (verdict.edited <==> exists f | f in staging.records :: InPlaceEdit(env, checkout, staging, f))
      ensures verdict.MissingOriginal? ==> exists f | f in staging.records :: !HasOriginal(env, checkout, staging, f)
    {
      var edited := false;
      var todo := staging.records.Keys;
      while todo != {}
        invariant todo <= staging.records.Keys
        invariant forall f | f in staging.records && f !in todo :: RecordValid(env, checkout, staging, f)
        invariant edited <==> exists f | f in staging.records :: f !in todo && InPlaceEdit(env, checkout, staging, f)
      {
        var f :| f in todo;
        if !HasOriginal(env, checkout, staging, f) {
          assert !RecordValid(env, checkout, staging, f);
          return MissingOriginal;
        }
        if InPlaceEdit(env, checkout, staging, f) {
          var r := staging.records[f];
          if !FileMatches(env, checkout.originals, r.managedPath, r.fingerprint.digest) {
            assert !RecordValid(env, checkout, staging, f);
            return EditMismatch;
          }
          edited := true;
        }
        todo := todo - {f};
      }
      verdict := Valid(edited);
    }

    /** Deletes each tombstoned record and the original it owns. */
    method BuryTombstones() returns (p: Progress, changed: bool)
      modifies `clock, `checkout
      ensures p == Done ==> checkout == ApplyTombstones(old(checkout), staging.tombstones)
      ensures Ran(plan, old(clock), clock, p)
      ensures p == Done ==> (changed <==> exists t | t in staging.tombstones :: ManagedAt(old(checkout).records, t))
      ensures old(Healthy()) && (forall q | q in TombstonedOriginals(old(checkout), staging.tombstones) :: NoDirectory(old(checkout).originals.Keys, q)) ==> p == Done
      ensures old(Healthy()) ==> Healthy() && p != Died
    {
      hide ApplyTombstones;
      p, changed := Done, false;
      var todo := staging.tombstones;
      ghost var gone, base := {}, checkout;
      NothingIsBuried(base);
      while todo != {}
        invariant old(Healthy()) ==> Healthy()
        invariant gone == staging.tombstones - todo && todo <= staging.tombstones
        invariant p == Done && Ran(plan, old(clock), clock, Done)
        invariant checkout == ApplyTombstones(base, gone) && checkout.originals.Keys <= base.originals.Keys
        invariant changed <==> exists t | t in gone :: ManagedAt(base.records, t)
      {
        var t :| t in todo;
        BuryOneMore(base, gone, t);
        todo := todo - {t};
        gone := gone + {t};
        if ManagedAt(checkout.records, t) {
          var original := checkout.records[t].managedPath;
          assert original in TombstonedOriginals(base, staging.tombstones);
          if NoDirectory(base.originals.Keys, original) { StillNoDirectory(checkout.originals, base.originals.Keys, original); }
          if FileExists(checkout.originals, original) {
            p := RemoveOriginal(original);
            if p != Done { return; }
          }
          changed := true;
        }
        if t in checkout.records {
          p := RemoveRecord(t);
          if p != Done { return; }
        }
      }
      assert gone == staging.tombstones;
    }

    /** What one more tombstone takes from a checkout, whether or not the file and the record are there. */
    lemma BuryOneMore(base: Tree, gone: set<FileName>, t: FileName)
      requires t !in gone
      ensures var before, after := ApplyTombstones(base, gone), ApplyTombstones(base, gone + {t});
        && (ManagedAt(before.records, t) <==> ManagedAt(base.records, t))
        && (t in before.records ==> before.records[t] == base.records[t])
        && after.records == before.records - {t}
        && (t !in before.records ==> after.records == before.records)
        && (!ManagedAt(before.records, t) ==> after.originals == before.originals)
        && (ManagedAt(before.records, t) ==>
              && after.originals == before.originals - {before.records[t].managedPath}
              && (before.records[t].managedPath !in before.originals ==> after.originals == before.originals))
    {
      var before, after := ApplyTombstones(base, gone), ApplyTombstones(base, gone + {t});
      assert after.records == before.records - {t};
      if ManagedAt(base.records, t) {
        assert TombstonedOriginals(base, gone + {t}) == TombstonedOriginals(base, gone) + {base.records[t].managedPath};
        assert after.originals == before.originals - {base.records[t].managedPath};
      } else {
        assert TombstonedOriginals(base, gone + {t}) == TombstonedOriginals(base, gone);
      }
    }

    /** The digest each claimed original must have, and the digest its target may still have. */
    method CollectDigests() returns (expected: map<Path, Digest>, previous: map<Path, Digest>)
      ensures expected.Keys == ExpectedOriginals(staging)
      ensures OneOwner(staging.records, staging.records) ==>
        expected == ExpectedDigests(staging) && previous == PreviousDigests(env, checkout, staging)
    {
      hide OneOwner, ExpectedOriginals, ExpectedDigests, PreviousOriginals, PreviousDigests, ExpectedFrom, PreviousFrom;
      expected, previous := map[], map[];
      var todo := staging.records.Keys;
      ghost var done := {};
      NothingCollected(env, checkout, staging);
      while todo != {}
        invariant done == staging.records.Keys - todo && todo <= staging.records.Keys
        invariant ExpectedFrom(staging, done, expected)
        invariant PreviousFrom(env, checkout, staging, done, previous)
      {
        var f :| f in todo;
        CollectOneMore(env, checkout, staging, done, f, expected, previous);
        todo := todo - {f};
        done := done + {f};
        var r := staging.records[f];
        if r.storage == Managed && r.managedPath != "" {
          expected := expected[r.managedPath := r.fingerprint.digest];
          var name := env.nameOf(r.id);
          if name in checkout.records && checkout.records[name].managedPath == r.managedPath {
            previous := previous[r.managedPath := checkout.records[name].fingerprint.digest];
          }
        }
      }
      assert done == staging.records.Keys;
      ExpectedKeys(staging, expected);
      if OneOwner(staging.records, staging.records) {
        ExpectedDetermined(staging, expected);
        PreviousDetermined(env, checkout, staging, previous);
      }
    }

    /** Copies one staged original to its target, unless the target already has the content. */
    method PublishOne(q: Path, expected: map<Path, Digest>, previous: map<Path, Digest>) returns (p: Progress)
      requires q in staging.originals && q in expected
      modifies `clock, `checkout
      ensures checkout.records == old(checkout).records
      ensures p == Done ==>
        checkout.originals == old(checkout).originals[q := Chosen(env, old(checkout).originals, staging, expected, q)]
      ensures p == Done ==> MayPublish(env, old(checkout).originals, staging, expected, previous, q)
      ensures Ran(plan, old(clock), clock, p)
      ensures old(Healthy()) && p != Done ==> !MayPublish(env, old(checkout).originals, staging, expected, previous, q)
      ensures old(Healthy()) ==> Healthy() && p != Died
    {
      if expected[q] == "" || !FileMatches(env, staging.originals, q, expected[q]) {
        return Failed;
      }
      if !FileFits(checkout.originals, q) { return Failed; }   // no directory to be made, or one in the way
      if q in checkout.originals {
        if FileMatches(env, checkout.originals, q, expected[q]) {
          return Done;
        }
        if !(q in previous && FileMatches(env, checkout.originals, q, previous[q])) {
          return Failed;
        }
      }
      p := Act();
      if p == Done {
        checkout := checkout.(originals := checkout.originals[q := staging.originals[q]]);
      }
    }

    method PublishAll(expected: map<Path, Digest>, previous: map<Path, Digest>) returns (p: Progress)
      requires expected.Keys == ExpectedOriginals(staging)
      requires staging == Cleaned(staging)
      modifies `clock, `checkout
      ensures p == Done ==> checkout == PublishOriginals(env, old(checkout), staging, expected)
      ensures Ran(plan, old(clock), clock, p)
      ensures p == Done ==> forall q | q in staging.originals ::
                MayPublish(env, old(checkout).originals, staging, expected, previous, q)
      ensures old(Healthy()) && NotNested(staging.originals.Keys) && p != Done ==> exists q | q in staging.originals ::
                !MayPublish(env, old(checkout).originals, staging, expected, previous, q)
      ensures old(Healthy()) ==> Healthy() && p != Died
    {
      hide FileFits, MayReplace, Chosen, NotNested;
      p := Done;
      var st := staging;
      ghost var records, files := checkout.records, checkout.originals;
      var todo := st.originals.Keys;
      ghost var done := {};
      AllPublishable(st);
      while todo != {}
        invariant old(Healthy()) ==> Healthy()
        invariant todo == st.originals.Keys - done && done <= st.originals.Keys
        invariant p == Done && Ran(plan, old(clock), clock, Done)
        invariant checkout == Tree(records, PublishSome(env, files, st, expected, done))
        invariant forall q | q in done :: MayPublish(env, files, st, expected, previous, q)
        decreases todo
      {
        var q :| q in todo;
        todo := todo - {q};
        PublishStep(env, files, st, expected, previous, done, q);
        p := PublishOne(q, expected, previous);
        if p != Done { return; }
        done := done + {q};
      }
      assert done == st.originals.Keys;
    }

    lemma PublishStep(env: Env, files: map<Path, Bytes>, st: Staging,
                      expected: map<Path, Digest>, previous: map<Path, Digest>, done: set<Path>, q: Path)
      requires done <= st.originals.Keys && q in st.originals && q !in done
      ensures var partly := PublishSome(env, files, st, expected, done);
        && PublishSome(env, files, st, expected, done + {q}) == partly[q := Chosen(env, partly, st, expected, q)]
        && (MayPublish(env, partly, st, expected, previous, q) ==> MayPublish(env, files, st, expected, previous, q))
        && (NotNested(st.originals.Keys) && MayPublish(env, files, st, expected, previous, q) ==> MayPublish(env, partly, st, expected, previous, q))
    {
      hide Chosen, MayReplace, Beneath;
      var before, chosen := ChosenFor(env, files, st, expected, done), Chosen(env, files, st, expected, q);
      assert ChosenFor(env, files, st, expected, done + {q}) == before[q := chosen];
      assert files + before[q := chosen] == (files + before)[q := chosen];
      SameTarget(env, files, files + before, st, expected, previous, q);
    }

    /** What is chosen for a path depends on nothing but what is there. */
    lemma SameTarget(env: Env, a: map<Path, Bytes>, b: map<Path, Bytes>, st: Staging,
                     expected: map<Path, Digest>, previous: map<Path, Digest>, q: Path)
      requires q in st.originals && (q in a <==> q in b) && (q in a ==> a[q] == b[q])
      ensures Chosen(env, a, st, expected, q) == Chosen(env, b, st, expected, q)
      ensures MayReplace(env, a, st, expected, previous, q) == MayReplace(env, b, st, expected, previous, q)
    {
    }

    lemma AllPublishable(st: Staging)
      requires st == Cleaned(st)
      ensures forall q | q in st.originals :: Publishable(st, q)
      ensures (set q | q in st.originals && Publishable(st, q)) == st.originals.Keys
    {
      assert forall q | q in st.originals :: q in ReferencedOriginals(st);
    }

    /** The originals that the re-pathed ones among some staged records had. */
    function ReplacedBy(records: map<FileName, Record>, st: Staging, some: set<FileName>): set<Path>
      requires some <= st.records.Keys
    {
      set f | f in some && Repaths(env, records, st, f) :: records[env.nameOf(st.records[f].id)].managedPath
    }

    lemma ReplacedByAll(records: map<FileName, Record>, st: Staging)
      ensures ReplacedBy(records, st, {}) == {} && ReplacedBy(records, st, st.records.Keys) == ReplacedOriginals(env, records, st)
    {
      hide Repaths;
    }

    lemma ReplacedByOneMore(records: map<FileName, Record>, st: Staging, some: set<FileName>, f: FileName)
      requires some <= st.records.Keys && f in st.records
      ensures ReplacedBy(records, st, some + {f}) == ReplacedBy(records, st, some)
                + if Repaths(env, records, st, f) then {records[env.nameOf(st.records[f].id)].managedPath} else {}
      ensures Repaths(env, records, st, f) ==> records[env.nameOf(st.records[f].id)].managedPath in ReplacedOriginals(env, records, st)
    {
    }

    /** Deletes the original of each record that is staged with another path. */
    method DropReplacedOriginals() returns (p: Progress, changed: bool)
      modifies `clock, `checkout
      ensures p == Done ==> checkout == DropReplaced(env, old(checkout), staging)
      ensures Ran(plan, old(clock), clock, p)
      ensures p == Done ==> (changed <==> exists f | f in staging.records :: Repaths(env, old(checkout).records, staging, f))
      ensures old(Healthy()) && (forall q | q in ReplacedOriginals(env, old(checkout).records, staging) :: NoDirectory(old(checkout).originals.Keys, q)) ==> p == Done
      ensures old(Healthy()) ==> Healthy() && p != Died
    {
      hide ReplacedBy, ReplacedOriginals, NoDirectory, FileExists;
      p, changed := Done, false;
      ghost var before := checkout;
      ghost var done, gone := {}, {};
      var todo := staging.records.Keys;
      ReplacedByAll(before.records, staging);
      assert before.originals - {} == before.originals;
      while todo != {}
        invariant old(Healthy()) ==> Healthy()
        invariant todo <= staging.records.Keys && done == staging.records.Keys - todo
        invariant p == Done && Ran(plan, old(clock), clock, Done)
        invariant checkout == before.(originals := before.originals - gone)
        invariant gone == ReplacedBy(before.records, staging, done)
        invariant changed <==> exists f | f in done :: f in staging.records && Repaths(env, before.records, staging, f)
      {
        var f :| f in todo;
        ReplacedByOneMore(before.records, staging, done, f);
        if Repaths(env, checkout.records, staging, f) {
          var previous := checkout.records[env.nameOf(staging.records[f].id)].managedPath;
          if NoDirectory(before.originals.Keys, previous) { StillNoDirectory(checkout.originals, before.originals.Keys, previous); }
          IfExists(checkout.originals, previous);
          if FileExists(checkout.originals, previous) {
            p := RemoveOriginal(previous);
            if p != Done { return; }
          }
          changed := true;
          gone := gone + {previous};
          assert before.originals - gone == (before.originals - ReplacedBy(before.records, staging, done)) - {previous};
        }
        todo := todo - {f};
        done := done + {f};
      }
      assert done == staging.records.Keys;
    }

    lemma IfExists(files: map<Path, Bytes>, p: Path)
      ensures !FileExists(files, p) ==> files - {p} == files
    {
    }

    method CopyStagedRecords() returns (p: Progress)
      modifies `clock, `checkout
      ensures p == Done ==> checkout == CopyRecords(old(checkout), staging)
      ensures Ran(plan, old(clock), clock, p)
      ensures old(Healthy()) ==> Healthy() && p == Done
    {
      p := Done;
      ghost var before := checkout;
      var todo := staging.records.Keys;
      while todo != {}
        invariant old(Healthy()) ==> Healthy()
        invariant todo <= staging.records.Keys
        invariant p == Done && Ran(plan, old(clock), clock, Done)
        invariant checkout.originals == before.originals
        invariant checkout.records == before.records + map f | f in staging.records && f !in todo :: staging.records[f]
      {
        var f :| f in todo;
        todo := todo - {f};
        p := CopyRecord(f);
        if p != Done { return; }
      }
      assert checkout.records == before.records + staging.records;
    }

    /** What the two phases that delete originals rely on. */
    lemma RemovableMeans(env: Env, base: Tree, st: Staging, expected: map<Path, Digest>)
      requires Workable(env, base, st)
      ensures forall p | p in TombstonedOriginals(base, st.tombstones) :: NoDirectory(base.originals.Keys, p)
      ensures var published := PublishOriginals(env, ApplyTombstones(base, st.tombstones), st, expected);
        forall p | p in ReplacedOriginals(env, published.records, st) :: NoDirectory(published.originals.Keys, p)
      ensures OneOwner(st.records, st.records) && NotNested(st.originals.Keys)
    {
      hide Beneath, ReplacedOriginals, TombstonedOriginals, Publishable, Chosen;
      var published := PublishOriginals(env, ApplyTombstones(base, st.tombstones), st, expected);
      assert published.records == base.records - st.tombstones;
      assert published.originals.Keys <= base.originals.Keys + st.originals.Keys;
      forall p | p in ReplacedOriginals(env, base.records - st.tombstones, st)
        ensures NoDirectory(published.originals.Keys, p)
      {
        assert NoDirectory(base.originals.Keys + st.originals.Keys, p);
      }
    }

    /** Replays the staging area onto the checkout; on `Done` the checkout is the new tree. */
    method ChangeCheckout() returns (p: Progress, changed: bool)
      requires staging == Cleaned(staging)
      modifies `clock, `checkout
      ensures Ran(plan, old(clock), clock, p)
      ensures p == Done && OneOwner(staging.records, staging.records) ==>
        && checkout == Applied(env, old(checkout), staging)
        && (forall q | q in staging.originals && Publishable(staging, q) ::
              MayPublish(env, ApplyTombstones(old(checkout), staging.tombstones).originals, staging,
                         ExpectedDigests(staging), PreviousDigests(env, old(checkout), staging), q))
      ensures p == Done ==> (changed <==>
        || staging.originals != map[]
        || (exists t | t in staging.tombstones :: ManagedAt(old(checkout).records, t))
        || exists f | f in staging.records :: Repaths(env, old(checkout).records - staging.tombstones, staging, f))
      ensures old(Healthy()) && Workable(env, old(checkout), staging) && p != Done ==> exists q | q in staging.originals && Publishable(staging, q) ::
                !MayPublish(env, ApplyTombstones(old(checkout), staging.tombstones).originals, staging,
                            ExpectedDigests(staging), PreviousDigests(env, old(checkout), staging), q)
      ensures old(Healthy()) ==> Healthy() && p != Died
    {
      hide PublishSome, MayPublish, Repaths, ManagedAt, TombstonedOriginals, ReplacedOriginals, WellFormed, NoDirectory, NotNested, Removable, Claims, Ran;
      AllPublishable(staging);
      var expected, previous := CollectDigests();
      ghost var base := checkout;
      if Workable(env, base, staging) {
        RemovableMeans(env, base, staging, expected);
      }
      ghost var start := clock;
      p, changed := BuryTombstones();
      if p != Done { return; }
      ghost var step := clock;
      p := PublishAll(expected, previous);
      RanOn(plan, start, step, clock);
      if p != Done { return; }
      changed := changed || staging.originals.Keys != {};
      var replaced;
      step := clock;
      p, replaced := DropReplacedOriginals();
      RanOn(plan, start, step, clock);
      if p != Done { return; }
      changed := changed || replaced;
      step := clock;
      p := CopyStagedRecords();
      RanOn(plan, start, step, clock);
    }

    /** Hands the changed trees to LORE and commits them as one revision. */
    method CommitRevision(originalsChanged: bool) returns (p: Progress)
      modifies `clock, `index, `committed
      ensures p == Done ==> committed == index == Tree(checkout.records, if originalsChanged then checkout.originals else old(index).originals)
      ensures p != Done ==> committed == old(committed)
      ensures Ran(plan, old(clock), clock, p) && (p == Done ==> clock == old(clock) + if originalsChanged then 3 else 2)
      ensures old(Healthy()) ==> Healthy() && p == Done
    {
      if originalsChanged {
        p := Act();
        if p != Done { return; }
        index := index.(originals := checkout.originals);
      }
      p := Act();
      if p != Done { return; }
      index := index.(records := checkout.records);
      p := Act();
      if p == Done {
        committed := index;
      }
    }

    /** What a failed step of a commit leaves behind: the committed checkout, if the reset works. */
    method Abandon(p: Progress) returns (outcome: CommitOutcome, intact: bool)
      modifies `clock, `checkout, `index
      ensures outcome == Crashed || outcome == Rejected
      ensures p == Died ==> outcome == Crashed
      ensures outcome == Crashed ==> !intact
      ensures intact ==> checkout == committed && index == committed
      ensures if p == Died then clock == old(clock) else Ran(plan, old(clock), clock, if outcome == Crashed then Died else Failed)
      ensures old(Healthy()) ==> Healthy() && (p != Died ==> outcome == Rejected && intact)
    {
      if p == Died { return Crashed, false; }
      var q := Restore();   // its result is not looked at
      outcome, intact := if q == Died then Crashed else Rejected, q == Done;
    }

    /** Changes the checkout, hands it to LORE and commits it; short of that, gives it up. */
    method Publish(edited: bool) returns (outcome: CommitOutcome, published: bool, intact: bool)
      requires staging == Cleaned(staging)
      requires edited <==> exists f | f in staging.records :: InPlaceEdit(env, checkout, staging, f)
      modifies `clock, `checkout, `index, `committed
      ensures published <==> outcome == Committed
      ensures outcome != FlushFailed && (outcome == Crashed ==> !intact)
      ensures Ran(plan, old(clock), clock, Ending(outcome))
      ensures !published ==> committed == old(committed)
      ensures !published && intact ==> checkout == committed && index == committed
      ensures published && OneOwner(staging.records, staging.records) ==>
        && checkout == Applied(env, old(checkout), staging)
        && committed == index == Published(env, old(index), old(checkout), staging)
        && (forall q | q in staging.originals && Publishable(staging, q) ::
              MayPublish(env, ApplyTombstones(old(checkout), staging.tombstones).originals, staging,
                         ExpectedDigests(staging), PreviousDigests(env, old(checkout), staging), q))
      ensures old(Healthy()) ==> Healthy() && outcome != Crashed && (published || intact)
      ensures old(Healthy()) && Workable(env, old(checkout), staging) && !published ==> exists q | q in staging.originals && Publishable(staging, q) ::
                !MayPublish(env, ApplyTombstones(old(checkout), staging.tombstones).originals, staging,
                            ExpectedDigests(staging), PreviousDigests(env, old(checkout), staging), q)
    {
      hide Applied, Cleaned, InPlaceEdit, MayPublish, Repaths, ManagedAt, Workable, OneOwner, Publishable, ApplyTombstones, Ran;
      ghost var base, start := checkout, clock;
      var p, changed := ChangeCheckout();
      ghost var step := clock;
      if p != Done {
        outcome, intact := Abandon(p);
        RanToAbandon(plan, start, step, clock, p);
        return outcome, false, intact;
      }
      var originalsChanged := edited || changed;
      assert originalsChanged <==> TouchesOriginals(env, base, staging);
      p := CommitRevision(originalsChanged);
      RanOn(plan, start, step, clock);
      step := clock;
      if p != Done {
        outcome, intact := Abandon(p);
        RanToAbandon(plan, start, step, clock, p);
        return outcome, false, intact;
      }
      outcome, published, intact := Committed, true, true;
    }

    /** Makes the new revision durable and clears the staging area. */
    method Conclude() returns (outcome: CommitOutcome, intact: bool)
      modifies `clock, `checkout, `index, `staging
      ensures outcome != Rejected && (outcome == Crashed ==> !intact)
      ensures outcome == FlushFailed ==> staging == old(staging) && (intact ==> checkout == committed && index == committed)
      ensures outcome == Committed ==> intact && checkout == old(checkout) && index == old(index)
      ensures PartOf(staging, old(staging))
      ensures RanCommit(plan, old(clock), clock, outcome)
      ensures outcome == Committed ==> clock == old(clock) + 2 && (plan(clock - 1) == NoFault ==> staging == EMPTY_STAGING)
      ensures old(Healthy()) ==> Healthy() && outcome == Committed && staging == EMPTY_STAGING
    {
      var p := Act();   // flush
      if p != Done {
        outcome, intact := Abandon(p);
        outcome := if outcome == Rejected then FlushFailed else outcome;
        return;
      }
      p := ClearStaging();   // a failure here is reported beside the checkpoint
      outcome := if p == Died then Crashed else Committed;
      intact := outcome == Committed;
    }

    /** Checks and commits a staging area without orphans. */
    method CommitCleaned() returns (outcome: CommitOutcome, published: bool, intact: bool)
      requires isOpen && staging == Cleaned(staging)
      modifies `clock, `checkout, `index, `committed, `staging
      ensures outcome == Committed || outcome == FlushFailed ==> published
      ensures outcome == Rejected ==> !published
      ensures !published ==> committed == old(committed)
      ensures published && OneOwner(old(staging).records, old(staging).records) ==>
        && committed == Published(env, old(index), old(checkout), old(staging))
        && Accepts(env, old(checkout), old(staging))
      ensures published && old(Ready()) && OneOwner(old(staging).records, old(staging).records) ==>
        committed == Applied(env, old(checkout), old(staging))
      ensures !published || outcome == FlushFailed ==> staging == old(staging)
      ensures PartOf(staging, old(staging))
      ensures outcome == Rejected && intact ==>
        (checkout == old(checkout) && index == old(index)) || (checkout == committed && index == committed)
      ensures outcome == FlushFailed && intact ==> checkout == index == committed
      ensures outcome == Committed && old(Ready()) && OneOwner(old(staging).records, old(staging).records) ==>
        intact && checkout == index == committed
      ensures intact && old(Ready()) && OneOwner(old(staging).records, old(staging).records) ==> Ready()
      ensures old(Healthy()) && Workable(env, old(checkout), old(staging)) ==>
        (outcome == Committed <==> Accepts(env, old(checkout), old(staging)))
      ensures RanCommit(plan, old(clock), clock, outcome)
      ensures outcome == Committed && plan(clock - 1) == NoFault ==> staging == EMPTY_STAGING
      ensures old(Healthy()) ==> Healthy() && (outcome == Committed || (outcome == Rejected && intact))
      ensures old(Healthy()) && outcome == Committed ==> staging == EMPTY_STAGING
    {
      hide Applied, Cleaned, RecordValid, InPlaceEdit, MayPublish, Workable, OneOwner, EditsDeclared, Publishable, ApplyTombstones,
           PartOf, Published, Accepts, HasOriginal, ExpectedDigests, PreviousDigests, Healthy, Ran, RanCommit;
      ghost var start, base, st := clock, checkout, staging;
      AcceptsMeans(env, checkout, staging);
      KeptTrivially(staging);
      CleaningKeepsForm(env, checkout, staging);
      NothingRan(plan, start);
      if staging.records.Keys == {} && staging.tombstones == {} { return Rejected, false, true; }
      var verdict := ValidateRecords();
      if verdict.MissingOriginal? { return Rejected, false, true; }
      UneditedCheckout(env, committed);
      if verdict.EditMismatch? {
        outcome, intact := Abandon(Failed);
        RanToOutcome(plan, start, start, clock, outcome);
        return outcome, false, intact;
      }
      outcome, published, intact := Publish(verdict.edited);
      RanToOutcome(plan, start, start, clock, outcome);
      if !published { return; }
      UneditedCheckout(env, committed);
      if old(Ready()) { OriginalsUntouched(env, old(committed), base, st); }
      ghost var step := clock;
      outcome, intact := Conclude();
      RanToOutcome(plan, start, step, clock, outcome);
    }

    /**
     * Commits what is staged. `published` says whether the revision moved on, and `intact` that
     * the checkout was left alone or is the committed revision again.
     */
    method Commit() returns (outcome: CommitOutcome, published: bool, intact: bool)
      modifies `clock, `checkout, `index, `committed, `staging
      ensures outcome == Committed || outcome == FlushFailed ==> published
      ensures outcome == Rejected ==> !published
      // The revision is either the old one or the whole staging area applied to the checkout.
      ensures !published ==> committed == old(committed)
      ensures published && OneOwner(old(staging).records, old(staging).records) ==>
        && committed == Published(env, old(index), old(checkout), Cleaned(old(staging)))
        && Accepts(env, old(checkout), Cleaned(old(staging)))
      ensures published && old(Ready()) && OneOwner(old(staging).records, old(staging).records) ==>
        committed == Applied(env, old(checkout), Cleaned(old(staging)))
      // No original is overwritten that somebody else had changed.
      ensures published && old(Ready()) && WellFormed(env, old(checkout), old(staging)) ==>
        NothingForeignReplaced(env, old(checkout), old(staging).tombstones, committed)
      // Until the final clear, nothing staged is lost.
      ensures !published || outcome == FlushFailed ==> WorkKept(old(staging), staging)
      ensures published ==> PartOf(staging, old(staging))
      // Unless the reset failed, the next commit finds the store as ready as this one did.
      ensures outcome == Rejected && intact ==>
        (checkout == old(checkout) && index == old(index)) || (checkout == committed && index == committed)
      ensures outcome == FlushFailed && intact ==> checkout == index == committed
      ensures outcome == Committed && old(Ready()) && OneOwner(old(staging).records, old(staging).records) ==>
        intact && checkout == index == committed
      ensures intact && old(Ready()) && OneOwner(old(staging).records, old(staging).records) ==> Ready()
      // From here on without faults, workable staging is committed exactly when it is acceptable.
      ensures old(Healthy()) && old(isOpen) && Workable(env, old(checkout), Cleaned(old(staging))) ==>
        (outcome == Committed <==> Accepts(env, old(checkout), Cleaned(old(staging))))
      ensures old(Healthy()) && old(isOpen) && Workable(env, old(checkout), Cleaned(old(staging))) ==>
        (outcome == Committed <==> AllBacked(env, old(checkout), Cleaned(old(staging))))
      // Success is reported only if every step but the last one, which clears the staging area, worked.
      ensures RanCommit(plan, old(clock), clock, outcome)
      ensures outcome == Committed && plan(clock - 1) == NoFault ==> staging == EMPTY_STAGING
      ensures !old(isOpen) ==> outcome == Rejected && unchanged(this)
      ensures old(Healthy()) ==> Healthy() && (outcome == Committed || outcome == Rejected)
      ensures old(Healthy()) && outcome == Committed ==> staging == EMPTY_STAGING
      ensures old(Healthy()) && outcome == Rejected ==> intact && (old(isOpen) ==> staging == Cleaned(old(staging)))
    {
      hide Applied, Cleaned, Workable, OneOwner, EditsDeclared, WorkKept, PartOf, Published, Accepts, Healthy, AllBacked,
           NothingForeignReplaced, Ran, RanCommit;
      ghost var start := clock;
      KeptTrivially(staging);
      CleaningKeepsForm(env, checkout, staging);
      AcceptedOnlyIf(env, checkout, staging);
      NothingRan(plan, start);
      if !isOpen { return Rejected, false, true; }
      var p := ClearOrphans();
      KeptIsPart(old(staging), staging);
      if old(Ready()) { KeptEditsAreDeclared(env, committed, checkout, old(staging), staging); }
      if p != Done {
        RanToFailure(plan, start, clock, p);
        return if p == Died then Crashed else Rejected, false, p == Failed;
      }
      CleanedIsCleaned(old(staging));
      ghost var step, st := clock, staging;
      outcome, published, intact := CommitCleaned();
      RanToOutcome(plan, start, step, clock, outcome);
      PartOfWhole(staging, st, old(staging));
    }
  }
}
