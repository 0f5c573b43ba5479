/**
 * What a scan does to the record store, entry by entry, and what that means for the outcome,
 * for the batch size, for repeated scans and for interrupted ones.
 */
module ScanLaws {
  import opened Media
  import opened IdOrder

  type Records = map<Id, Record>

  /** A file under the root: what the directory, the hasher and the metadata reader say of it. */
  datatype FileEntry = FileEntry(
    identity: FileIdentity,
    fileName: string,
    folderPath: Path,
    kind: MediaKind,                    // from the extension
    supported: bool,                    // the metadata reader accepts the file
    parsed: Option<Metadata>,           // what the reader returned, if anything
    fingerprint: Option<Fingerprint>)   // absent when the file cannot be hashed

  /** Path keys, the extent of the root and the managed location, as functions of their inputs. */
  datatype Setting = Setting(keyOf: Path -> Path, inRoot: Path -> bool,
                             managedPathOf: (Id, Fingerprint, string) -> Path)

  function Key(s: Setting, e: FileEntry): Path { s.keyOf(e.identity.absolutePath) }

  function RecordKey(s: Setting, r: Record): Path { s.keyOf(r.identity.absolutePath) }

  function FoundKeys(s: Setting, entries: seq<FileEntry>): set<Path> {
    set i | 0 <= i < |entries| :: Key(s, entries[i])
  }

  predicate Indexable(e: FileEntry) { e.kind != Unknown || e.supported }

  // ----- looking records up -----

  /** Ids of the records under the root at a path. */
  function At(s: Setting, base: Records, key: Path): set<Id> {
    set id | id in base && s.inRoot(RecordKey(s, base[id])) && RecordKey(s, base[id]) == key
  }

  /** Records with the same content whose own file is gone and that serve no other file yet. */
  function MoveCandidates(s: Setting, base: Records, found: set<Path>, seen: set<Id>, digest: Digest): set<Id> {
    set id | id in base && s.inRoot(RecordKey(s, base[id]))
             && base[id].fingerprint.IsValid() && base[id].fingerprint.digest == digest
             && RecordKey(s, base[id]) !in found && id !in seen
  }

  // ----- the record an entry is given -----

  function WithNames(m: Metadata, e: FileEntry): Metadata {
    m.(fileName := e.fileName, folderPath := e.folderPath)
  }

  function RefreshedMetadata(m: Metadata, e: FileEntry): Metadata {
    WithNames(if e.supported && e.parsed.Some? then e.parsed.value else m, e)
  }

  function Reconciled(s: Setting, r: Record, e: FileEntry, fp: Fingerprint): Record {
    r.(identity := e.identity, fingerprint := fp, storage := Managed,
       managedPath := s.managedPathOf(r.id, fp, e.fileName),
       metadata := RefreshedMetadata(r.metadata, e))
  }

  const NO_METADATA := Metadata(Unknown, "", "", "", [], "")

  function NewRecord(id: Id, e: FileEntry): Record {
    Record(id, Fingerprint("", ""), e.identity, Referenced, "", NO_METADATA.(kind := e.kind), Recipe(0, ""))
  }

  /** What happens to one entry. */
  datatype Verdict =
    | Skipped                     // not media
    | Unhashable
    | Unchanged(id: Id)
    | Updated(record: Record)     // known at this path, or moved here
    | Added(record: Record)
  {
    predicate Serves() { Unchanged? || Updated? || Added? }

    function Served(): Id
      requires Serves()
    {
      if Unchanged? then id else record.id
    }
  }

  ghost function Judge(s: Setting, base: Records, found: set<Path>, seen: set<Id>, e: FileEntry, newId: Id): Verdict {
    var known := At(s, base, Key(s, e));
    if !Indexable(e) then
      Skipped
    else if known != {} then
      var existing := base[First(known)];
      if e.identity.LooksUnchangedFrom(existing.identity) && existing.storage == Managed then
        Unchanged(First(known))
      else if e.fingerprint.None? then
        Unhashable
      else
        Updated(Reconciled(s, existing, e, e.fingerprint.value))
    else if e.fingerprint.None? then
      Unhashable
    else
      var fp := e.fingerprint.value;
      var candidates := MoveCandidates(s, base, found, seen, fp.digest);
      if fp.IsValid() && candidates != {} then
        Updated(Reconciled(s, base[First(candidates)], e, fp))
      else
        Added(Reconciled(s, NewRecord(newId, e), e, fp))
  }

  // ----- a whole scan -----

  /** The scan so far: the ids in use, the unreadable paths, the staged records, the counts. */
  datatype ScanState = ScanState(seen: set<Id>, failed: set<Path>, log: seq<Record>, added: nat, updated: nat, same: nat)

  const START := ScanState({}, {}, [], 0, 0, 0)

  function Advance(st: ScanState, key: Path, v: Verdict): ScanState {
    match v
    case Skipped => st
    case Unhashable => st.(failed := st.failed + {key})
    case Unchanged(id) => st.(seen := st.seen + {id}, same := st.same + 1)
    case Updated(r) => st.(seen := st.seen + {r.id}, log := st.log + [r], updated := st.updated + 1)
    case Added(r) => st.(seen := st.seen + {r.id}, log := st.log + [r], added := st.added + 1)
  }

  /** Staged records replace or join the committed ones, in order. */
  function Stored(base: Records, log: seq<Record>): Records {
    if log == [] then base else Stored(base, log[..|log| - 1])[log[|log| - 1].id := log[|log| - 1]]
  }

  /** One scan: entry `i` draws the id `supply[i]` if it turns out to be new. */
  datatype ScanRun = ScanRun(s: Setting, base: Records, entries: seq<FileEntry>, supply: seq<Id>) {
    function KeyAt(i: nat): Path
      requires i < |entries|
    {
      Key(s, entries[i])
    }

    function Found(): set<Path> {
      FoundKeys(s, entries)
    }

    /** The state after the first `n` entries. */
    ghost function State(n: nat): ScanState
      requires n <= |entries| == |supply|
      decreases n, 0
    {
      if n == 0 then START else Advance(State(n - 1), KeyAt(n - 1), VerdictAt(n - 1))
    }

    ghost function VerdictAt(i: nat): Verdict
      requires i < |entries| == |supply|
      decreases i, 1
    {
      Judge(s, base, Found(), State(i).seen, entries[i], supply[i])
    }

    /** Records at a found, readable path that serve nothing once every entry was judged. */
    ghost function Duplicates(): set<Id>
      requires |entries| == |supply|
    {
      set id | id in base && s.inRoot(RecordKey(s, base[id])) && id !in State(|entries|).seen
               && RecordKey(s, base[id]) in Found() && RecordKey(s, base[id]) !in State(|entries|).failed
    }

    /** The store when only the first `n` entries were committed. */
    ghost function Partial(n: nat): Records
      requires n <= |entries| == |supply|
    {
      Stored(base, State(n).log)
    }

    /** The store after an uninterrupted scan. */
    ghost function Outcome(): Records
      requires |entries| == |supply|
    {
      Partial(|entries|) - Duplicates()
    }

    /** Records are filed under their ids, the tree lists each path once, and fresh ids are fresh. */
    ghost predicate Valid() {
      && |entries| == |supply|
      && (forall id | id in base :: base[id].id == id)
      && (forall i, j | 0 <= i < j < |entries| :: KeyAt(i) != KeyAt(j))
      && (forall i: nat | i < |entries| :: s.inRoot(KeyAt(i)))
      && (forall i | 0 <= i < |supply| :: supply[i] !in base)
      && (forall i, j | 0 <= i < j < |supply| :: supply[i] != supply[j])
    }

    ghost predicate Serves(i: nat, id: Id)
      requires i < |entries| == |supply|
    {
      VerdictAt(i).Serves() && VerdictAt(i).Served() == id
    }
  }

  // ----- who serves which path -----

  /** Where the id that serves entry `i` comes from. */
  lemma ServedFrom(scan: ScanRun, i: nat)
    requires scan.Valid() && i < |scan.entries| && scan.VerdictAt(i).Serves()
    ensures var id := scan.VerdictAt(i).Served(); var known := At(scan.s, scan.base, scan.KeyAt(i));
      if known != {} then id == First(known) && id in scan.base && RecordKey(scan.s, scan.base[id]) == scan.KeyAt(i)
      else if scan.VerdictAt(i).Added? then id == scan.supply[i]
      else id in scan.base && RecordKey(scan.s, scan.base[id]) !in scan.Found() && id !in scan.State(i).seen
  {
  }

  /** The served ids and the unreadable paths, in closed form. */
  lemma {:induction false} StateInClosedForm(scan: ScanRun, n: nat)
    requires scan.Valid() && n <= |scan.entries|
    ensures forall id :: id in scan.State(n).seen <==> exists i: nat | i < n :: scan.Serves(i, id)
    ensures forall p :: p in scan.State(n).failed <==> exists i: nat | i < n :: scan.VerdictAt(i).Unhashable? && scan.KeyAt(i) == p
  {
    hide Judge, ScanRun.Valid;
    SizesMatch(scan);
    if n > 0 {
      StateInClosedForm(scan, n - 1);
      assert scan.State(n) == Advance(scan.State(n - 1), scan.KeyAt(n - 1), scan.VerdictAt(n - 1));
      forall id
        ensures id in scan.State(n).seen <==> id in scan.State(n - 1).seen || scan.Serves(n - 1, id)
      {
      }
    }
  }

  /** No id serves two found files. */
  lemma NoIdServesTwice(scan: ScanRun, i: nat, j: nat)
    requires scan.Valid() && i < j < |scan.entries|
    requires scan.VerdictAt(i).Serves() && scan.VerdictAt(j).Serves()
    ensures scan.VerdictAt(i).Served() != scan.VerdictAt(j).Served()
  {
    ServedFrom(scan, i);
    ServedFrom(scan, j);
    StateInClosedForm(scan, j);
    assert scan.Serves(i, scan.VerdictAt(i).Served());
    assert scan.KeyAt(i) in scan.Found() && scan.KeyAt(j) in scan.Found();
    assert scan.KeyAt(i) != scan.KeyAt(j);
  }

  // ----- the store a scan leaves -----

  predicate Stages(v: Verdict) { v.Updated? || v.Added? }

  /** A committed prefix holds each record the prefix staged. */
  lemma {:induction false} StagedIsStored(scan: ScanRun, n: nat, i: nat)
    requires scan.Valid() && i < n <= |scan.entries| && Stages(scan.VerdictAt(i))
    ensures var r := scan.VerdictAt(i).record; r.id in scan.Partial(n) && scan.Partial(n)[r.id] == r
  {
    hide Judge, ScanRun.Partial, ScanRun.VerdictAt;
    PartialStep(scan, n);
    if i < n - 1 {
      StagedIsStored(scan, n - 1, i);
      if Stages(scan.VerdictAt(n - 1)) {
        NoIdServesTwice(scan, i, n - 1);
      }
    }
  }

  ghost predicate StagedBefore(scan: ScanRun, n: nat, id: Id)
    requires n <= |scan.entries| == |scan.supply|
  {
    exists i: nat | i < n :: Stages(scan.VerdictAt(i)) && scan.Serves(i, id)
  }

  /** Any other id keeps its old record, if it had one. */
  lemma {:induction false} OthersAreKept(scan: ScanRun, n: nat, id: Id)
    requires scan.Valid() && n <= |scan.entries| && !StagedBefore(scan, n, id)
    ensures id in scan.Partial(n) <==> id in scan.base
    ensures id in scan.base ==> scan.Partial(n)[id] == scan.base[id]
  {
    hide Judge;
    if n > 0 {
      PartialStep(scan, n);
      OthersAreKept(scan, n - 1, id);
      assert !(Stages(scan.VerdictAt(n - 1)) && scan.Serves(n - 1, id));
    }
  }

  lemma PartialStep(scan: ScanRun, n: nat)
    requires scan.Valid() && 0 < n <= |scan.entries|
    ensures var v := scan.VerdictAt(n - 1);
      scan.Partial(n) == if Stages(v) then scan.Partial(n - 1)[v.record.id := v.record] else scan.Partial(n - 1)
  {
    var before, v := scan.State(n - 1), scan.VerdictAt(n - 1);
    assert scan.State(n) == Advance(before, scan.KeyAt(n - 1), v);
    if Stages(v) {
      assert (before.log + [v.record])[..|before.log|] == before.log;
    }
  }

  /** A record staged for an entry carries the entry's path, and belongs to the id it is staged under. */
  lemma StagedRecord(scan: ScanRun, i: nat)
    requires scan.Valid() && i < |scan.entries| && Stages(scan.VerdictAt(i))
    ensures var r := scan.VerdictAt(i).record;
      && r.identity == scan.entries[i].identity && RecordKey(scan.s, r) == scan.KeyAt(i)
      && r.storage == Managed && scan.entries[i].fingerprint == Some(r.fingerprint)
  {
  }

  /** Every record of a partial store is filed under its id. */
  lemma PartialIsFiled(scan: ScanRun, n: nat, id: Id)
    requires scan.Valid() && n <= |scan.entries| && id in scan.Partial(n)
    ensures scan.Partial(n)[id].id == id
  {
    hide Judge, ScanRun.Partial;
    if StagedBefore(scan, n, id) {
      var i: nat :| i < n && Stages(scan.VerdictAt(i)) && scan.Serves(i, id);
      StagedIsStored(scan, n, i);
    } else {
      OthersAreKept(scan, n, id);
    }
  }

  /** The id serving entry `i` is recorded at the entry's path once the entry was judged. */
  lemma ServedIsAtItsPath(scan: ScanRun, i: nat, n: nat)
    requires scan.Valid() && i < n <= |scan.entries| && scan.VerdictAt(i).Serves()
    ensures var id := scan.VerdictAt(i).Served();
      id in scan.Partial(n) && RecordKey(scan.s, scan.Partial(n)[id]) == scan.KeyAt(i)
    ensures !Stages(scan.VerdictAt(i)) ==> scan.VerdictAt(i).Served() in scan.base && scan.Partial(n)[scan.VerdictAt(i).Served()] == scan.base[scan.VerdictAt(i).Served()]
  {
    hide ScanRun.Partial;
    if Stages(scan.VerdictAt(i)) {
      StagedRecord(scan, i);
      StagedIsStored(scan, n, i);
    } else {
      ServedFrom(scan, i);
      UnchangedIsNotStaged(scan, i, n);
      OthersAreKept(scan, n, scan.VerdictAt(i).Served());
    }
  }

  lemma UnchangedIsNotStaged(scan: ScanRun, i: nat, n: nat)
    requires scan.Valid() && i < |scan.entries| && n <= |scan.entries| && scan.VerdictAt(i).Unchanged?
    ensures !StagedBefore(scan, n, scan.VerdictAt(i).id)
  {
    hide Judge;
    forall j: nat | j < n && Stages(scan.VerdictAt(j)) && scan.Serves(j, scan.VerdictAt(i).id)
      ensures false
    {
      if j < i { NoIdServesTwice(scan, j, i); } else if i < j { NoIdServesTwice(scan, i, j); }
    }
  }

  /** An id that serves nothing is where it was. */
  lemma UnservedIsKept(scan: ScanRun, n: nat, id: Id)
    requires scan.Valid() && n <= |scan.entries| && id !in scan.State(n).seen
    ensures id in scan.Partial(n) <==> id in scan.base
    ensures id in scan.base ==> scan.Partial(n)[id] == scan.base[id]
  {
    hide Judge, ScanRun.Partial;
    StateInClosedForm(scan, n);
    OthersAreKept(scan, n, id);
  }

  /** Which ids are recorded at the path of entry `i` once `n` entries are committed. */
  lemma PartialAt(scan: ScanRun, n: nat, i: nat, id: Id)
    requires scan.Valid() && n <= |scan.entries| && i < |scan.entries|
    ensures id in At(scan.s, scan.Partial(n), scan.KeyAt(i)) <==>
      id in At(scan.s, scan.base, scan.KeyAt(i)) || (i < n && scan.Serves(i, id))
  {
    hide Judge, ScanRun.Partial;
    assert scan.KeyAt(i) in scan.Found();
    StateInClosedForm(scan, n);
    if id in scan.State(n).seen {
      var j: nat :| j < n && scan.Serves(j, id);
      ServedIsAtItsPath(scan, j, n);
      ServedFrom(scan, j);
      assert scan.KeyAt(j) in scan.Found();
      if j != i && i < n && scan.Serves(i, id) {
        if j < i { NoIdServesTwice(scan, j, i); } else { NoIdServesTwice(scan, i, j); }
      }
    } else {
      UnservedIsKept(scan, n, id);
    }
  }

  /** After a whole scan exactly one record is at the path of each media file that could be read. */
  lemma OutcomeAt(scan: ScanRun, i: nat)
    requires scan.Valid() && i < |scan.entries|
    ensures At(scan.s, scan.Outcome(), scan.KeyAt(i)) ==
      match scan.VerdictAt(i)
      case Skipped => {}
      case Unhashable => At(scan.s, scan.base, scan.KeyAt(i))
      case _ => {scan.VerdictAt(i).Served()}
  {
    forall id
      ensures id in At(scan.s, scan.Outcome(), scan.KeyAt(i)) <==>
        match scan.VerdictAt(i)
        case Skipped => false
        case Unhashable => id in At(scan.s, scan.base, scan.KeyAt(i))
        case _ => id == scan.VerdictAt(i).Served()
    {
      hide At, Judge, ScanRun.State, ScanRun.VerdictAt, ScanRun.Outcome, ScanRun.Valid;
      OutcomeHas(scan, i, id);
    }
  }

  lemma OutcomeHas(scan: ScanRun, i: nat, id: Id)
    requires scan.Valid() && i < |scan.entries|
    ensures id in At(scan.s, scan.Outcome(), scan.KeyAt(i)) <==>
      match scan.VerdictAt(i)
      case Skipped => false
      case Unhashable => id in At(scan.s, scan.base, scan.KeyAt(i))
      case _ => id == scan.VerdictAt(i).Served()
  {
    hide Judge, ScanRun.Partial, ScanRun.Valid, ScanRun.State, ScanRun.VerdictAt, ScanRun.Outcome, ScanRun.Duplicates, At;
    var n, key := |scan.entries|, scan.KeyAt(i);
    SizesMatch(scan);
    PartialAt(scan, n, i, id);
    OwnPathOnly(scan, i, id);
    OutcomeDropsDuplicates(scan, i, id);
    FailedHere(scan, i);
    if scan.Serves(i, id) { ServingIsSeen(scan, i, id); }
  }

  lemma SizesMatch(scan: ScanRun)
    requires scan.Valid()
    ensures |scan.entries| == |scan.supply|
  {
  }

  lemma ServingIsSeen(scan: ScanRun, i: nat, id: Id)
    requires scan.Valid() && i < |scan.entries| && scan.Serves(i, id)
    ensures id in scan.State(|scan.entries|).seen
  {
    hide Judge;
    StateInClosedForm(scan, |scan.entries|);
  }

  lemma FailedHere(scan: ScanRun, i: nat)
    requires scan.Valid() && i < |scan.entries|
    ensures scan.KeyAt(i) in scan.State(|scan.entries|).failed <==> scan.VerdictAt(i).Unhashable?
  {
    hide Judge;
    StateInClosedForm(scan, |scan.entries|);
  }

  lemma OutcomeDropsDuplicates(scan: ScanRun, i: nat, id: Id)
    requires scan.Valid() && i < |scan.entries|
    ensures id in At(scan.s, scan.Outcome(), scan.KeyAt(i)) <==> id in At(scan.s, scan.Partial(|scan.entries|), scan.KeyAt(i)) && id !in scan.Duplicates()
    ensures id in scan.Duplicates() ==> id !in scan.State(|scan.entries|).seen
    ensures id in At(scan.s, scan.base, scan.KeyAt(i)) ==>
      (id in scan.Duplicates() <==> id !in scan.State(|scan.entries|).seen && scan.KeyAt(i) !in scan.State(|scan.entries|).failed)
  {
    hide Judge, ScanRun.Partial, ScanRun.State;
    FoundAt(scan, i);
  }

  lemma FoundAt(scan: ScanRun, i: nat)
    requires i < |scan.entries|
    ensures scan.KeyAt(i) in scan.Found()
  {
  }

  /** A committed id that serves some entry, and is recorded at the path of `i`, serves `i`. */
  lemma OwnPathOnly(scan: ScanRun, i: nat, id: Id)
    requires scan.Valid() && i < |scan.entries|
    ensures id in At(scan.s, scan.base, scan.KeyAt(i)) && id in scan.State(|scan.entries|).seen ==> scan.Serves(i, id)
  {
    hide Judge;
    StateInClosedForm(scan, |scan.entries|);
    if j: nat :| j < |scan.entries| && scan.Serves(j, id) {
      ServedFrom(scan, j);
      assert scan.KeyAt(i) in scan.Found();
      assert j < i ==> scan.KeyAt(j) != scan.KeyAt(i);
      assert i < j ==> scan.KeyAt(i) != scan.KeyAt(j);
    }
  }

  /** A record elsewhere, or whose file is missing and was matched by nothing, survives as it was. */
  lemma UnmatchedRecordsSurvive(scan: ScanRun, id: Id)
    requires scan.Valid() && id in scan.base
    requires id !in scan.State(|scan.entries|).seen
    requires !scan.s.inRoot(RecordKey(scan.s, scan.base[id])) || RecordKey(scan.s, scan.base[id]) !in scan.Found()
    ensures id in scan.Outcome() && scan.Outcome()[id] == scan.base[id]
  {
    hide Judge, ScanRun.Partial;
    UnservedIsKept(scan, |scan.entries|, id);
  }

  // ----- the outcome file by file, in terms of records, sizes and times alone -----

  /** A record under the root whose file has the path `key`. */
  predicate LiesAt(s: Setting, r: Record, key: Path) {
    s.keyOf(r.identity.absolutePath) == key && s.inRoot(key)
  }

  /** The record with the first id among those at `key`. */
  predicate IsFirstAt(s: Setting, base: Records, key: Path, id: Id) {
    && id in base && LiesAt(s, base[id], key)
    && forall other | other in base && other != id && LiesAt(s, base[other], key) :: Before(id, other)
  }

  /** Managed, of the same known size, and of the same known time. */
  predicate SameSizeAndTime(was: Record, e: FileEntry) {
    && was.storage == Managed
    && 0 <= was.identity.sizeBytes == e.identity.sizeBytes
    && was.identity.lastModified.Some? && e.identity.lastModified.Some?
    && was.identity.lastModified.value == e.identity.lastModified.value
  }

  /** `r` is the record `was` brought up to date with the file. */
  predicate BroughtUpToDate(s: Setting, was: Record, e: FileEntry, r: Record) {
    && r.id == was.id && r.recipe == was.recipe
    && r.identity == e.identity && e.fingerprint == Some(r.fingerprint)
    && r.storage == Managed && r.managedPath == s.managedPathOf(was.id, r.fingerprint, e.fileName)
    && r.metadata.fileName == e.fileName && r.metadata.folderPath == e.folderPath
    && var source := if e.supported && e.parsed.Some? then e.parsed.value else was.metadata;
       && r.metadata.kind == source.kind && r.metadata.caption == source.caption
       && r.metadata.tags == source.tags && r.metadata.rest == source.rest
  }

  /** A record with this content whose own file is not among those found. */
  predicate LostItsFile(s: Setting, base: Records, entries: seq<FileEntry>, fp: Fingerprint, id: Id) {
    && id in base && s.inRoot(s.keyOf(base[id].identity.absolutePath))
    && fp.algorithm != "" && fp.digest != ""
    && base[id].fingerprint.algorithm != "" && base[id].fingerprint.digest == fp.digest
    && forall i | 0 <= i < |entries| :: s.keyOf(entries[i].identity.absolutePath) != s.keyOf(base[id].identity.absolutePath)
  }

  ghost predicate OnlyOneAt(s: Setting, after: Records, key: Path, id: Id) {
    forall other | other in after && LiesAt(s, after[other], key) :: other == id
  }

  /** The record of a file known at its path: left as it was if the file is, else brought up to date. */
  ghost predicate KnownFileScanned(s: Setting, base: Records, e: FileEntry, id: Id, after: Records) {
    && id in base && id in after
    && (if SameSizeAndTime(base[id], e) || e.fingerprint.None? then after[id] == base[id]
        else BroughtUpToDate(s, base[id], e, after[id]))
    && (SameSizeAndTime(base[id], e) || e.fingerprint.Some? ==>
          OnlyOneAt(s, after, s.keyOf(e.identity.absolutePath), id))
  }

  /** The record of a file that lost its place is taken along; only if none is left, a fresh one is made. */
  ghost predicate NewFileScanned(scan: ScanRun, i: nat, id: Id, after: Records)
    requires i < |scan.entries| == |scan.supply|
  {
    var e := scan.entries[i];
    && id in after && e.fingerprint.Some? && OnlyOneAt(scan.s, after, scan.s.keyOf(e.identity.absolutePath), id)
    && if LostItsFile(scan.s, scan.base, scan.entries, e.fingerprint.value, id) then
         BroughtUpToDate(scan.s, scan.base[id], e, after[id])
       else
         && id == scan.supply[i]
         && BroughtUpToDate(scan.s, Record(id, Fingerprint("", ""), e.identity, Referenced, "",
                                           Metadata(e.kind, "", "", "", [], ""), Recipe(0, "")), e, after[id])
         && forall lost | LostItsFile(scan.s, scan.base, scan.entries, e.fingerprint.value, lost) ::
              TakenEarlier(scan, i, lost, after)
  }

  ghost predicate TakenEarlier(scan: ScanRun, i: nat, id: Id, after: Records)
    requires i <= |scan.entries|
  {
    id in after && exists j: nat | j < i :: after[id].identity == scan.entries[j].identity
  }

  /** What becomes of one found file: the first record at its path, or a moved or fresh one. */
  ghost predicate FileScanned(scan: ScanRun, i: nat, after: Records)
    requires i < |scan.entries| == |scan.supply|
  {
    var e := scan.entries[i];
    var key := scan.s.keyOf(e.identity.absolutePath);
    if e.kind == Unknown && !e.supported then
      forall id | id in after :: !LiesAt(scan.s, after[id], key)
    else
      && (forall id | IsFirstAt(scan.s, scan.base, key, id) :: KnownFileScanned(scan.s, scan.base, e, id, after))
      && ((forall id | id in scan.base :: !LiesAt(scan.s, scan.base[id], key)) ==>
            if e.fingerprint.Some? then exists id :: NewFileScanned(scan, i, id, after)
            else forall id | id in after :: !LiesAt(scan.s, after[id], key))
  }

  /** Where the id that serves an entry ends up. */
  lemma ServedInOutcome(scan: ScanRun, i: nat)
    requires scan.Valid() && i < |scan.entries| && scan.VerdictAt(i).Serves()
    ensures var v := scan.VerdictAt(i); var id := v.Served();
      && id in scan.Outcome()
      && (Stages(v) ==> scan.Outcome()[id] == v.record)
      && (!Stages(v) ==> id in scan.base && scan.Outcome()[id] == scan.base[id])
      && OnlyOneAt(scan.s, scan.Outcome(), scan.KeyAt(i), id)
  {
    hide Judge, ScanRun.Partial, ScanRun.State, ScanRun.VerdictAt;
    var v, n := scan.VerdictAt(i), |scan.entries|;
    OutcomeAt(scan, i);
    assert scan.Serves(i, v.Served());
    ServingIsSeen(scan, i, v.Served());
    ServedIsAtItsPath(scan, i, n);
    if Stages(v) { StagedIsStored(scan, n, i); }
    forall other | other in scan.Outcome() && LiesAt(scan.s, scan.Outcome()[other], scan.KeyAt(i)) ensures other == v.Served() {
      assert other in At(scan.s, scan.Outcome(), scan.KeyAt(i));
    }
  }

  lemma FirstAtIsFirst(s: Setting, base: Records, key: Path, id: Id)
    requires IsFirstAt(s, base, key, id)
    ensures id in At(s, base, key) && First(At(s, base, key)) == id
  {
    assert IsFirst(id, At(s, base, key));
    FirstIsUnique(At(s, base, key), id, First(At(s, base, key)));
  }

  /** The verdict on a media file known by the record `was`: size and time decide whether it is read again. */
  predicate KnownIsJudged(s: Setting, was: Record, e: FileEntry, v: Verdict) {
    if SameSizeAndTime(was, e) then v == Unchanged(was.id)
    else if e.fingerprint.None? then v == Unhashable
    else v.Updated? && BroughtUpToDate(s, was, e, v.record)
  }

  lemma JudgeOfKnown(s: Setting, base: Records, found: set<Path>, seen: set<Id>, e: FileEntry, newId: Id, id: Id)
    requires (e.kind != Unknown || e.supported) && IsFirstAt(s, base, s.keyOf(e.identity.absolutePath), id) && base[id].id == id
    ensures KnownIsJudged(s, base[id], e, Judge(s, base, found, seen, e, newId))
  {
    FirstAtIsFirst(s, base, s.keyOf(e.identity.absolutePath), id);
  }

  lemma KnownVerdict(scan: ScanRun, i: nat, id: Id)
    requires scan.Valid() && i < |scan.entries| && IsFirstAt(scan.s, scan.base, scan.KeyAt(i), id)
    requires scan.entries[i].kind != Unknown || scan.entries[i].supported
    ensures scan.base[id].id == id && KnownIsJudged(scan.s, scan.base[id], scan.entries[i], scan.VerdictAt(i))
    ensures scan.VerdictAt(i).Updated? ==> scan.VerdictAt(i).record.id == id
  {
    hide Judge, ScanRun.State;
    JudgeOfKnown(scan.s, scan.base, scan.Found(), scan.State(i).seen, scan.entries[i], scan.supply[i], id);
  }

  lemma KnownFileIsScanned(scan: ScanRun, i: nat, id: Id)
    requires scan.Valid() && i < |scan.entries| && IsFirstAt(scan.s, scan.base, scan.KeyAt(i), id)
    requires scan.entries[i].kind != Unknown || scan.entries[i].supported
    ensures KnownFileScanned(scan.s, scan.base, scan.entries[i], id, scan.Outcome())
  {
    hide Judge, ScanRun.Partial, ScanRun.State, ScanRun.VerdictAt, ScanRun.Outcome, ScanRun.Valid, BroughtUpToDate, IsFirstAt, SameSizeAndTime, OnlyOneAt;
    KnownVerdict(scan, i, id);
    SizesMatch(scan);
    assert id in scan.base by { FirstAtIsFirst(scan.s, scan.base, scan.KeyAt(i), id); }
    if scan.VerdictAt(i).Serves() {
      ServedInOutcome(scan, i);
    } else {
      UnreadIsKept(scan, i, id);
    }
  }

  /** A record at the path of a file that cannot be read stays. */
  lemma UnreadIsKept(scan: ScanRun, i: nat, id: Id)
    requires scan.Valid() && i < |scan.entries| && scan.VerdictAt(i).Unhashable?
    requires IsFirstAt(scan.s, scan.base, scan.KeyAt(i), id)
    ensures id in scan.Outcome() && scan.Outcome()[id] == scan.base[id]
  {
    hide Judge, ScanRun.Partial, ScanRun.State;
    UntouchedAt(scan, |scan.entries|, i, id);
    FailedHere(scan, i);
  }

  /** What is decided for a file at a path nothing is recorded at. */
  lemma NewVerdict(scan: ScanRun, i: nat)
    requires scan.Valid() && i < |scan.entries| && At(scan.s, scan.base, scan.KeyAt(i)) == {}
    requires (scan.entries[i].kind != Unknown || scan.entries[i].supported) && scan.entries[i].fingerprint.Some?
    ensures var v, e := scan.VerdictAt(i), scan.entries[i]; var fp := e.fingerprint.value;
      && Stages(v)
      && if LostItsFile(scan.s, scan.base, scan.entries, fp, v.record.id) then
           BroughtUpToDate(scan.s, scan.base[v.record.id], e, v.record)
         else
           && v.record.id == scan.supply[i]
           && BroughtUpToDate(scan.s, Record(v.record.id, Fingerprint("", ""), e.identity, Referenced, "",
                                             Metadata(e.kind, "", "", "", [], ""), Recipe(0, "")), e, v.record)
           && forall lost | LostItsFile(scan.s, scan.base, scan.entries, fp, lost) :: lost in scan.State(i).seen
  {
    hide ScanRun.State;
    var fp := scan.entries[i].fingerprint.value;
    var candidates := MoveCandidates(scan.s, scan.base, scan.Found(), scan.State(i).seen, fp.digest);
    forall id
      ensures LostItsFile(scan.s, scan.base, scan.entries, fp, id) && id !in scan.State(i).seen <==> fp.IsValid() && id in candidates
    {
      LostIsNotFound(scan, id);
    }
  }

  lemma LostIsNotFound(scan: ScanRun, id: Id)
    ensures id in scan.base ==> (RecordKey(scan.s, scan.base[id]) !in scan.Found() <==>
      forall i | 0 <= i < |scan.entries| :: scan.s.keyOf(scan.entries[i].identity.absolutePath) != scan.s.keyOf(scan.base[id].identity.absolutePath))
  {
  }

  lemma NewFileIsScanned(scan: ScanRun, i: nat) returns (id: Id)
    requires scan.Valid() && i < |scan.entries| && At(scan.s, scan.base, scan.KeyAt(i)) == {}
    requires (scan.entries[i].kind != Unknown || scan.entries[i].supported) && scan.entries[i].fingerprint.Some?
    ensures NewFileScanned(scan, i, id, scan.Outcome())
  {
    hide Judge, ScanRun.Partial, ScanRun.State, ScanRun.VerdictAt, ScanRun.Outcome, ScanRun.Valid, BroughtUpToDate, LostItsFile, At, OnlyOneAt;
    SizesMatch(scan);
    NewVerdict(scan, i);
    ServedInOutcome(scan, i);
    id := scan.VerdictAt(i).record.id;
    var fp := scan.entries[i].fingerprint.value;
    if !LostItsFile(scan.s, scan.base, scan.entries, fp, id) {
      forall lost | LostItsFile(scan.s, scan.base, scan.entries, fp, lost) ensures TakenEarlier(scan, i, lost, scan.Outcome()) {
        SeenLostIsTaken(scan, i, fp, lost);
      }
    }
  }

  lemma SeenLostIsTaken(scan: ScanRun, i: nat, fp: Fingerprint, lost: Id)
    requires scan.Valid() && i < |scan.entries| && lost in scan.State(i).seen
    requires LostItsFile(scan.s, scan.base, scan.entries, fp, lost)
    ensures TakenEarlier(scan, i, lost, scan.Outcome())
  {
    hide Judge, ScanRun.Partial, ScanRun.State, ScanRun.VerdictAt, ScanRun.Outcome;
    StateInClosedForm(scan, i);
    var j: nat :| j < i && scan.Serves(j, lost);
    ServedFrom(scan, j);
    ServedInOutcome(scan, j);
    UnchangedIsKnown(scan, j);
    StagedRecord(scan, j);
    assert scan.Outcome()[lost].identity == scan.entries[j].identity;
  }

  lemma UnchangedIsKnown(scan: ScanRun, j: nat)
    requires scan.Valid() && j < |scan.entries| && scan.VerdictAt(j).Serves()
    ensures At(scan.s, scan.base, scan.KeyAt(j)) == {} ==> Stages(scan.VerdictAt(j))
  {
  }

  /** After a whole scan every found file is on record as it is on disk. */
  lemma FilesAreScanned(scan: ScanRun, i: nat)
    requires scan.Valid() && i < |scan.entries|
    ensures FileScanned(scan, i, scan.Outcome())
  {
    hide Judge, ScanRun.Partial, ScanRun.State, ScanRun.VerdictAt, ScanRun.Outcome, ScanRun.Valid, IsFirstAt, KnownFileScanned, NewFileScanned;
    SizesMatch(scan);
    var e, key, after := scan.entries[i], scan.KeyAt(i), scan.Outcome();
    OutcomeAt(scan, i);
    OtherVerdicts(scan, i);
    if e.kind == Unknown && !e.supported {
      NothingAt(scan.s, after, key);
    } else {
      forall id | IsFirstAt(scan.s, scan.base, key, id) ensures KnownFileScanned(scan.s, scan.base, e, id, after) {
        KnownFileIsScanned(scan, i, id);
      }
      NothingAt(scan.s, scan.base, key);
      if At(scan.s, scan.base, key) == {} {
        if e.fingerprint.Some? {
          var id := NewFileIsScanned(scan, i);
        } else {
          NothingAt(scan.s, after, key);
        }
      }
    }
  }

  lemma OtherVerdicts(scan: ScanRun, i: nat)
    requires scan.Valid() && i < |scan.entries|
    ensures var v, e := scan.VerdictAt(i), scan.entries[i];
      && (e.kind == Unknown && !e.supported ==> v == Skipped)
      && ((e.kind != Unknown || e.supported) && At(scan.s, scan.base, scan.KeyAt(i)) == {} && e.fingerprint.None? ==> v == Unhashable)
  {
  }

  lemma NothingAt(s: Setting, base: Records, key: Path)
    ensures At(s, base, key) == {} <==> forall id | id in base :: !LiesAt(s, base[id], key)
  {
    assert forall id :: id in At(s, base, key) <==> id in base && LiesAt(s, base[id], key);
  }

  /** A record whose file was not found is left alone, or taken along by a file with its content. */
  ghost predicate MissingFileScanned(scan: ScanRun, id: Id, after: Records)
    requires id in scan.base
  {
    && id in after
    && (after[id] == scan.base[id] || exists i | 0 <= i < |scan.entries| ::
          && scan.entries[i].fingerprint.Some? && LostItsFile(scan.s, scan.base, scan.entries, scan.entries[i].fingerprint.value, id)
          && BroughtUpToDate(scan.s, scan.base[id], scan.entries[i], after[id]))
  }

  lemma MissingFilesAreScanned(scan: ScanRun, id: Id)
    requires scan.Valid() && id in scan.base
    requires !scan.s.inRoot(RecordKey(scan.s, scan.base[id])) || RecordKey(scan.s, scan.base[id]) !in scan.Found()
    ensures MissingFileScanned(scan, id, scan.Outcome())
  {
    hide Judge, ScanRun.Partial, ScanRun.State, ScanRun.VerdictAt, ScanRun.Outcome, BroughtUpToDate, LostItsFile;
    if id !in scan.State(|scan.entries|).seen {
      UnmatchedRecordsSurvive(scan, id);
    } else {
      StateInClosedForm(scan, |scan.entries|);
      var i: nat :| i < |scan.entries| && scan.Serves(i, id);
      ServedInOutcome(scan, i);
      TakenAlong(scan, i, id);
    }
  }

  lemma TakenAlong(scan: ScanRun, i: nat, id: Id)
    requires scan.Valid() && i < |scan.entries| && scan.Serves(i, id) && id in scan.base
    requires !scan.s.inRoot(RecordKey(scan.s, scan.base[id])) || RecordKey(scan.s, scan.base[id]) !in scan.Found()
    ensures var v, e := scan.VerdictAt(i), scan.entries[i];
      && Stages(v) && e.fingerprint.Some? && LostItsFile(scan.s, scan.base, scan.entries, e.fingerprint.value, id)
      && BroughtUpToDate(scan.s, scan.base[id], e, v.record)
  {
    hide ScanRun.State;
    ServedFrom(scan, i);
    assert scan.KeyAt(i) in scan.Found();
    LostIsNotFound(scan, id);
  }

  predicate NoFileAt(scan: ScanRun, r: Record) {
    forall i: nat | i < |scan.entries| :: !LiesAt(scan.s, r, scan.s.keyOf(scan.entries[i].identity.absolutePath))
  }

  /** What a completed scan leaves, said of each found file and of each record whose file is gone. */
  ghost predicate Rescanned(scan: ScanRun, after: Records)
    requires |scan.entries| == |scan.supply|
  {
    && (forall i: nat | i < |scan.entries| :: FileScanned(scan, i, after))
    && (forall id | id in scan.base && NoFileAt(scan, scan.base[id]) ::
          MissingFileScanned(scan, id, after))
    && (forall id | id in after :: id in scan.base || id in scan.supply)
  }

  lemma OutcomeIsRescanned(scan: ScanRun)
    requires scan.Valid()
    ensures Rescanned(scan, scan.Outcome())
  {
    hide Judge, ScanRun.Partial, ScanRun.State, ScanRun.VerdictAt, ScanRun.Valid, ScanRun.KeyAt, ScanRun.Duplicates, FileScanned, MissingFileScanned;
    SizesMatch(scan);
    forall i: nat | i < |scan.entries| ensures FileScanned(scan, i, scan.Outcome()) {
      FilesAreScanned(scan, i);
    }
    forall id | id in scan.base && NoFileAt(scan, scan.base[id])
      ensures MissingFileScanned(scan, id, scan.Outcome())
    {
      assert !scan.s.inRoot(RecordKey(scan.s, scan.base[id])) || RecordKey(scan.s, scan.base[id]) !in scan.Found() by {
        NotAtAnyFile(scan, id);
      }
      MissingFilesAreScanned(scan, id);
    }
    forall id | id in scan.Outcome() ensures id in scan.base || id in scan.supply {
      StoredIds(scan, |scan.entries|, id);
    }
  }

  lemma NotAtAnyFile(scan: ScanRun, id: Id)
    requires id in scan.base && NoFileAt(scan, scan.base[id])
    ensures !scan.s.inRoot(RecordKey(scan.s, scan.base[id])) || RecordKey(scan.s, scan.base[id]) !in scan.Found()
  {
    var key := RecordKey(scan.s, scan.base[id]);
    if key in scan.Found() {
      var i :| 0 <= i < |scan.entries| && Key(scan.s, scan.entries[i]) == key;
      assert !LiesAt(scan.s, scan.base[id], scan.s.keyOf(scan.entries[i].identity.absolutePath));
    }
  }

  ghost function Readable(scan: ScanRun, n: nat): set<nat>
    requires n <= |scan.entries| == |scan.supply|
  {
    set i: nat | i < n && IsReadable(scan, i)
  }

  /** A media file that could be hashed, or need not be. */
  ghost predicate IsReadable(scan: ScanRun, i: nat)
    requires i < |scan.entries|
  {
    var e := scan.entries[i];
    && (e.kind != Unknown || e.supported)
    && (e.fingerprint.Some? || exists id ::
          IsFirstAt(scan.s, scan.base, scan.s.keyOf(e.identity.absolutePath), id) && SameSizeAndTime(scan.base[id], e))
  }

  /** The counts add up to the media files that could be read. */
  lemma {:induction false} CountsAddUp(scan: ScanRun, n: nat)
    requires scan.Valid() && n <= |scan.entries|
    ensures scan.State(n).added + scan.State(n).updated + scan.State(n).same == |Readable(scan, n)|
    ensures |scan.State(n).log| == scan.State(n).added + scan.State(n).updated
  {
    hide Judge, IsReadable, ScanRun.State, ScanRun.VerdictAt, ScanRun.Valid;
    SizesMatch(scan);
    if n == 0 {
      assert Readable(scan, 0) == {};
      assert scan.State(0) == START by { StartState(scan); }
    } else {
      CountsAddUp(scan, n - 1);
      CountStep(scan, n);
      ReadableIsServed(scan, n - 1);
      var more := if scan.VerdictAt(n - 1).Serves() then {n - 1} else {};
      assert Readable(scan, n) == Readable(scan, n - 1) + more;
    }
  }

  /** How many records there are that were not there before. */
  function Gained(records: Records, base: Records): nat { |records.Keys - base.Keys| }

  /** What is counted as added is what the store gains. */
  lemma {:induction false} AddedIsGained(scan: ScanRun, n: nat)
    requires scan.Valid() && n <= |scan.entries|
    ensures scan.State(n).added == Gained(scan.Partial(n), scan.base)
  {
    hide *;
    SizesMatch(scan);
    if n == 0 {
      StartIsBase(scan);
      StartState(scan);
      NothingGained(scan.base);
    } else {
      AddedIsGained(scan, n - 1);
      PartialStep(scan, n);
      GainedStep(scan, n);
      var v := scan.VerdictAt(n - 1);
      if v.Added? || v.Updated? { KeysGained(scan.Partial(n - 1), scan.base, v.record); }
    }
  }

  lemma NothingGained(base: Records)
    ensures Gained(base, base) == 0
  {
    assert base.Keys - base.Keys == {};
  }

  lemma KeysGained(records: Records, base: Records, r: Record)
    ensures Gained(records[r.id := r], base) == Gained(records, base) + if r.id in base || r.id in records then 0 else 1
  {
    var before, now := records.Keys - base.Keys, records[r.id := r].Keys - base.Keys;
    assert now == if r.id in base then before else before + {r.id};
  }

  lemma GainedStep(scan: ScanRun, n: nat)
    requires scan.Valid() && 0 < n <= |scan.entries|
    ensures var v := scan.VerdictAt(n - 1);
      && scan.State(n).added == scan.State(n - 1).added + (if v.Added? then 1 else 0)
      && (Stages(v) <==> v.Added? || v.Updated?)
      && (v.Added? ==> v.record.id !in scan.base && v.record.id !in scan.Partial(n - 1))
      && (v.Updated? ==> v.record.id in scan.base)
  {
    hide Judge, ScanRun.Partial;
    assert scan.State(n) == Advance(scan.State(n - 1), scan.KeyAt(n - 1), scan.VerdictAt(n - 1));
    DrawnOrKnown(scan, n - 1);
    var v := scan.VerdictAt(n - 1);
    if v.Added? && v.record.id in scan.Partial(n - 1) { StoredIds(scan, n - 1, v.record.id); }
  }

  lemma DrawnOrKnown(scan: ScanRun, i: nat)
    requires scan.Valid() && i < |scan.entries|
    ensures var v := scan.VerdictAt(i);
      (v.Added? ==> v.record.id == scan.supply[i]) && (v.Updated? ==> v.record.id in scan.base)
  {
    hide ScanRun.State;
  }

  /** The counts a completed scan reports: what the store gained, what was rewritten, what was left. */
  ghost predicate Tallied(scan: ScanRun, st: ScanState, after: Records)
    requires |scan.entries| == |scan.supply|
  {
    && st.added == |after.Keys - scan.base.Keys|
    && st.added + st.updated == |st.log|
    && st.added + st.updated + st.same == |Readable(scan, |scan.entries|)|
  }

  lemma OutcomeIsTallied(scan: ScanRun)
    requires scan.Valid()
    ensures Tallied(scan, scan.State(|scan.entries|), scan.Outcome())
  {
    hide Judge, ScanRun.Partial, ScanRun.State, ScanRun.VerdictAt, Readable;
    SizesMatch(scan);
    AddedIsGained(scan, |scan.entries|);
    CountsAddUp(scan, |scan.entries|);
    assert scan.Outcome().Keys - scan.base.Keys == scan.Partial(|scan.entries|).Keys - scan.base.Keys;
  }

  lemma StartState(scan: ScanRun)
    requires |scan.entries| == |scan.supply|
    ensures scan.State(0) == START && START.added == 0
  {
  }

  lemma CountStep(scan: ScanRun, n: nat)
    requires 0 < n <= |scan.entries| == |scan.supply|
    ensures var a, b, v := scan.State(n - 1), scan.State(n), scan.VerdictAt(n - 1);
      && b.added + b.updated + b.same == a.added + a.updated + a.same + (if v.Serves() then 1 else 0)
      && |b.log| - b.added - b.updated == |a.log| - a.added - a.updated
  {
    hide Judge;
    assert scan.State(n) == Advance(scan.State(n - 1), scan.KeyAt(n - 1), scan.VerdictAt(n - 1));
  }

  lemma ReadableIsServed(scan: ScanRun, i: nat)
    requires scan.Valid() && i < |scan.entries|
    ensures scan.VerdictAt(i).Serves() <==> IsReadable(scan, i)
  {
    hide ScanRun.State;
    var known := At(scan.s, scan.base, scan.KeyAt(i));
    if known != {} {
      assert IsFirst(First(known), known);
      assert forall id | id in scan.base && LiesAt(scan.s, scan.base[id], scan.KeyAt(i)) :: id in known;
      assert IsFirstAt(scan.s, scan.base, scan.KeyAt(i), First(known));
    }
    if id :| IsFirstAt(scan.s, scan.base, scan.KeyAt(i), id) && SameSizeAndTime(scan.base[id], scan.entries[i]) {
      FirstAtIsFirst(scan.s, scan.base, scan.KeyAt(i), id);
      assert IsFirstAt(scan.s, scan.base, scan.s.keyOf(scan.entries[i].identity.absolutePath), id);
    }
  }

  // ----- resuming an interrupted scan -----

  /** `again` scans the same tree over what `full` had committed after `j` entries. */
  ghost predicate Resumes(full: ScanRun, j: nat, again: ScanRun) {
    && full.Valid() && again.Valid() && j <= |full.entries|
    && again.s == full.s && again.entries == full.entries && again.base == full.Partial(j)
    && again.supply[j..] == full.supply[j..]
  }

  /** A committed id at the path of entry `i` that the prefix did not use for `i` is untouched. */
  lemma UntouchedAt(full: ScanRun, j: nat, i: nat, id: Id)
    requires full.Valid() && j <= |full.entries| && i < |full.entries|
    requires id in At(full.s, full.base, full.KeyAt(i))
    requires i < j ==> !(Stages(full.VerdictAt(i)) && full.Serves(i, id))
    ensures id in full.Partial(j) && full.Partial(j)[id] == full.base[id]
  {
    hide Judge, ScanRun.Partial;
    OwnPathOnly(full, i, id);
    if StagedBefore(full, j, id) {
      var k: nat :| k < j && Stages(full.VerdictAt(k)) && full.Serves(k, id);
      StateInClosedForm(full, |full.entries|);
      assert full.Serves(i, id);
      if k < i { NoIdServesTwice(full, k, i); } else if i < k { NoIdServesTwice(full, i, k); }
    }
    OthersAreKept(full, j, id);
  }

  /** An entry whose work is committed is served by the same id again, with the same record. */
  lemma CommittedEntry(full: ScanRun, j: nat, again: ScanRun, i: nat)
    requires Resumes(full, j, again) && i < j
    ensures var v, w := full.VerdictAt(i), again.VerdictAt(i);
      && (v.Skipped? <==> w.Skipped?) && (v.Unhashable? <==> w.Unhashable?)
      && (v.Serves() ==> w.Serves() && w.Served() == v.Served())
      && (Stages(w) ==> v.Serves() && v.Served() in full.Partial(j) && w.record == full.Partial(j)[v.Served()])
  {
    hide ScanRun.Partial, ScanRun.State;
    var v, e := full.VerdictAt(i), full.entries[i];
    var known, known' := At(full.s, full.base, full.KeyAt(i)), At(full.s, again.base, full.KeyAt(i));
    forall id ensures id in known' <==> id in known || full.Serves(i, id) {
      PartialAt(full, j, i, id);
    }
    if v.Serves() {
      var id := v.Served();
      assert full.Serves(i, id);
      ServedFrom(full, i);
      ServedIsAtItsPath(full, i, j);
      assert IsFirst(id, known') by {
        if known == {} { assert known' == {id}; } else { assert known' == known; }
      }
      FirstIsUnique(known', id, First(known'));
      if Stages(v) {
        StagedIsStored(full, j, i);
        StagedRecord(full, i);
        ReconciledByVerdict(full, i);
      }
    } else {
      assert known' == known;
      if known != {} {
        UntouchedAt(full, j, i, First(known));
      }
    }
  }

  /** Every staged record is a fixed point of reconciling with its entry. */
  lemma ReconciledByVerdict(scan: ScanRun, i: nat)
    requires scan.Valid() && i < |scan.entries| && Stages(scan.VerdictAt(i))
    ensures scan.entries[i].fingerprint.Some?
    ensures Reconciled(scan.s, scan.VerdictAt(i).record, scan.entries[i], scan.entries[i].fingerprint.value) == scan.VerdictAt(i).record
  {
  }

  /** An entry still to be done is judged as it would have been without the interruption. */
  lemma RemainingEntry(full: ScanRun, j: nat, again: ScanRun, i: nat)
    requires Resumes(full, j, again) && j <= i < |full.entries|
    requires again.State(i).seen == full.State(i).seen
    ensures again.VerdictAt(i) == full.VerdictAt(i)
  {
    var e := full.entries[i];
    var known, known' := At(full.s, full.base, full.KeyAt(i)), At(full.s, again.base, full.KeyAt(i));
    assert known' == known by {
      forall id ensures id in known' <==> id in known {
        PartialAt(full, j, i, id);
      }
    }
    if known != {} {
      UntouchedAt(full, j, i, First(known));
    }
    if e.fingerprint.Some? {
      SameCandidates(full, j, again, i, e.fingerprint.value.digest);
    }
    assert again.supply[i] == again.supply[j..][i - j] == full.supply[i];
  }

  lemma SameCandidates(full: ScanRun, j: nat, again: ScanRun, i: nat, digest: Digest)
    requires Resumes(full, j, again) && j <= i < |full.entries|
    ensures var seen := full.State(i).seen;
      && MoveCandidates(full.s, again.base, again.Found(), seen, digest) == MoveCandidates(full.s, full.base, full.Found(), seen, digest)
      && forall id | id in MoveCandidates(full.s, full.base, full.Found(), seen, digest) :: again.base[id] == full.base[id]
  {
    hide Judge, ScanRun.Partial, ScanRun.State, ScanRun.VerdictAt;
    var seen := full.State(i).seen;
    forall id | id !in seen
      ensures id in again.base <==> id in full.base
      ensures id in full.base ==> again.base[id] == full.base[id]
    {
      SeenGrows(full, j, i);
      UnservedIsKept(full, j, id);
    }
    SameFiles(full, again);
    forall id
      ensures id in MoveCandidates(full.s, again.base, full.Found(), seen, digest) <==> id in MoveCandidates(full.s, full.base, full.Found(), seen, digest)
    {
    }
  }

  lemma SameFiles(a: ScanRun, b: ScanRun)
    requires a.s == b.s && a.entries == b.entries
    ensures a.Found() == b.Found()
  {
    forall p ensures p in a.Found() <==> p in b.Found() {
      if i: nat :| i < |a.entries| && a.KeyAt(i) == p { assert b.KeyAt(i) == p; }
      if i: nat :| i < |b.entries| && b.KeyAt(i) == p { assert a.KeyAt(i) == p; }
    }
  }

  lemma SeenGrows(scan: ScanRun, i: nat, j: nat)
    requires scan.Valid() && i <= j <= |scan.entries|
    ensures scan.State(i).seen <= scan.State(j).seen && scan.State(i).failed <= scan.State(j).failed
  {
    hide Judge;
    StateInClosedForm(scan, i);
    StateInClosedForm(scan, j);
  }

  /**
   * Resuming is the same as never having stopped: after `i` entries the resumed scan has seen
   * and failed what the whole scan had, and the store is the one the whole scan has after
   * `max(i, j)` entries.
   */
  lemma {:induction false} ResumedScanAgrees(full: ScanRun, j: nat, again: ScanRun, i: nat)
    requires Resumes(full, j, again) && i <= |full.entries|
    ensures again.State(i).seen == full.State(i).seen && again.State(i).failed == full.State(i).failed
    ensures again.Partial(i) == full.Partial(if i < j then j else i)
  {
    hide Judge, ScanRun.State, ScanRun.Partial, ScanRun.VerdictAt, Advance, Stages;
    if i > 0 {
      ResumedScanAgrees(full, j, again, i - 1);
      StateStep(full, i - 1);
      StateStep(again, i - 1);
      VerdictsAlike(full, j, again, i - 1);
      AdvanceAlike(full.State(i - 1), again.State(i - 1), full.KeyAt(i - 1), full.VerdictAt(i - 1), again.VerdictAt(i - 1));
      PartialStep(again, i);
      if i <= j {
        RepeatedEntryStaysStored(full, j, again, i - 1);
      } else {
        RemainingEntry(full, j, again, i - 1);
        PartialStep(full, i);
      }
    } else {
      NothingCommittedYet(full);
      NothingCommittedYet(again);
    }
  }

  lemma NothingCommittedYet(scan: ScanRun)
    requires scan.Valid()
    ensures scan.State(0) == START && scan.Partial(0) == scan.base
  {
  }

  lemma StateStep(scan: ScanRun, i: nat)
    requires scan.Valid() && i < |scan.entries|
    ensures scan.State(i + 1) == Advance(scan.State(i), scan.KeyAt(i), scan.VerdictAt(i))
  {
  }

  ghost predicate Alike(v: Verdict, w: Verdict) {
    && (v.Skipped? <==> w.Skipped?) && (v.Unhashable? <==> w.Unhashable?)
    && (v.Serves() ==> w.Serves() && w.Served() == v.Served())
    && (Stages(v) ==> v.record.id == v.Served()) && (Stages(w) ==> w.record.id == w.Served())
  }

  lemma AdvanceAlike(a: ScanState, b: ScanState, key: Path, v: Verdict, w: Verdict)
    requires a.seen == b.seen && a.failed == b.failed && Alike(v, w)
    ensures Advance(a, key, v).seen == Advance(b, key, w).seen && Advance(a, key, v).failed == Advance(b, key, w).failed
  {
  }

  lemma VerdictsAlike(full: ScanRun, j: nat, again: ScanRun, i: nat)
    requires Resumes(full, j, again) && i < |full.entries| && again.State(i).seen == full.State(i).seen
    ensures Alike(full.VerdictAt(i), again.VerdictAt(i))
  {
    hide Judge, ScanRun.State, ScanRun.Partial, ScanRun.VerdictAt;
    if i < j {
      CommittedEntry(full, j, again, i);
    } else {
      RemainingEntry(full, j, again, i);
    }
  }

  /** An entry that was committed already is staged at most as it is stored. */
  lemma RepeatedEntryStaysStored(full: ScanRun, j: nat, again: ScanRun, i: nat)
    requires Resumes(full, j, again) && i < j
    ensures var w := again.VerdictAt(i);
      Stages(w) ==> full.Partial(j)[w.record.id := w.record] == full.Partial(j)
  {
    hide Judge, ScanRun.State, ScanRun.Partial, ScanRun.VerdictAt;
    CommittedEntry(full, j, again, i);
  }

  /** Rerunning an interrupted scan to its end leaves the store of one uninterrupted scan. */
  lemma InterruptedScanConverges(full: ScanRun, j: nat, again: ScanRun)
    requires Resumes(full, j, again)
    ensures again.Outcome() == full.Outcome()
  {
    hide Judge, ScanRun.Partial, ScanRun.State;
    var n := |full.entries|;
    ResumedScanAgrees(full, j, again, n);
    SameFiles(full, again);
    forall id | id !in full.State(n).seen
      ensures id in again.base <==> id in full.base
      ensures id in full.base ==> again.base[id] == full.base[id]
    {
      SeenGrows(full, j, n);
      UnservedIsKept(full, j, id);
    }
    assert again.Duplicates() == full.Duplicates();
  }

  // ----- any number of interruptions -----

  /** One cancelled run: the ids it could draw, and how many entries it had committed. */
  datatype Attempt = Attempt(supply: seq<Id>, committed: nat)

  ghost predicate Distinct(base: Records, a: seq<Id>, b: seq<Id>) {
    && (forall i | 0 <= i < |a| :: a[i] !in base)
    && (forall i, j | 0 <= i < |a| && 0 <= j < |b| :: a[i] != b[j])
  }

  /** The runs draw ids that are new to the store and to each other. */
  ghost predicate Independent(scan: ScanRun, attempts: seq<Attempt>) {
    && scan.Valid()
    && (forall a | 0 <= a < |attempts| :: attempts[a].committed <= |scan.entries| && scan.(supply := attempts[a].supply).Valid())
    && (forall a, b | 0 <= a < b < |attempts| :: Distinct(scan.base, attempts[a].supply, attempts[b].supply))
    && (forall a | 0 <= a < |attempts| :: Distinct(scan.base, attempts[a].supply, scan.supply))
  }

  /** The store after the cancelled runs, each starting from what the one before committed. */
  ghost function AfterAttempts(s: Setting, base: Records, entries: seq<FileEntry>, attempts: seq<Attempt>): Records
    requires forall a | 0 <= a < |attempts| :: attempts[a].committed <= |entries| == |attempts[a].supply|
  {
    if attempts == [] then base
    else
      var last := attempts[|attempts| - 1];
      ScanRun(s, AfterAttempts(s, base, entries, attempts[..|attempts| - 1]), entries, last.supply).Partial(last.committed)
  }

  /** Only the ids drawn for the first `n` entries matter to the first `n` steps. */
  lemma {:induction false} OnlyDrawnIdsMatter(a: ScanRun, b: ScanRun, n: nat)
    requires a.s == b.s && a.base == b.base && a.entries == b.entries
    requires n <= |a.entries| == |a.supply| == |b.supply| && a.supply[..n] == b.supply[..n]
    ensures a.State(n) == b.State(n) && a.Partial(n) == b.Partial(n)
  {
    hide Judge;
    if n > 0 {
      assert a.supply[..n - 1] == a.supply[..n][..n - 1] && b.supply[..n - 1] == b.supply[..n][..n - 1];
      OnlyDrawnIdsMatter(a, b, n - 1);
      SameFiles(a, b);
      assert a.supply[n - 1] == a.supply[..n][n - 1] == b.supply[n - 1];
    }
  }

  lemma StoredIds(scan: ScanRun, n: nat, id: Id)
    requires scan.Valid() && n <= |scan.entries| && id in scan.Partial(n)
    ensures id in scan.base || exists i | 0 <= i < n :: scan.supply[i] == id
  {
    hide Judge, ScanRun.Partial;
    if StagedBefore(scan, n, id) {
      var i: nat :| i < n && Stages(scan.VerdictAt(i)) && scan.Serves(i, id);
      ServedFrom(scan, i);
    } else {
      OthersAreKept(scan, n, id);
    }
  }

  /** The committed prefix drew its ids from the cancelled runs. */
  ghost predicate DrawnFrom(attempts: seq<Attempt>, drawn: seq<Id>) {
    forall i: nat | i < |drawn| :: IsDrawn(attempts, i, drawn[i])
  }

  ghost predicate IsDrawn(attempts: seq<Attempt>, i: nat, id: Id) {
    exists a: nat :: Drew(attempts, a, i, id)
  }

  predicate Drew(attempts: seq<Attempt>, a: nat, i: nat, id: Id) {
    a < |attempts| && i < |attempts[a].supply| && attempts[a].supply[i] == id
  }

  /** One scan that draws `drawn` first and then continues with its own supply. */
  function Continued(scan: ScanRun, drawn: seq<Id>): ScanRun
    requires |drawn| <= |scan.supply|
  {
    scan.(supply := drawn + scan.supply[|drawn|..])
  }

  /** The attempt that drew the `i`th id. */
  lemma Drawn(attempts: seq<Attempt>, drawn: seq<Id>, i: nat) returns (a: nat)
    requires DrawnFrom(attempts, drawn) && i < |drawn|
    ensures Drew(attempts, a, i, drawn[i])
  {
    assert IsDrawn(attempts, i, drawn[i]);
    a :| Drew(attempts, a, i, drawn[i]);
  }

  /** The ids one attempt drew are new and distinct. */
  lemma DrawnIds(scan: ScanRun, attempts: seq<Attempt>, a: nat)
    requires Independent(scan, attempts) && a < |attempts|
    ensures forall i | 0 <= i < |attempts[a].supply| :: attempts[a].supply[i] !in scan.base
    ensures forall i, j | 0 <= i < j < |attempts[a].supply| :: attempts[a].supply[i] != attempts[a].supply[j]
  {
    assert scan.(supply := attempts[a].supply).Valid();
  }

  lemma ContinuedIsNew(scan: ScanRun, attempts: seq<Attempt>, drawn: seq<Id>, i: nat)
    requires Independent(scan, attempts) && DrawnFrom(attempts, drawn) && |drawn| <= |scan.supply| && i < |scan.supply|
    ensures Continued(scan, drawn).supply[i] !in scan.base
  {
    hide Independent, DrawnFrom;
    if i < |drawn| {
      var a := Drawn(attempts, drawn, i);
      DrawnIds(scan, attempts, a);
    } else {
      IndependentIsValid(scan, attempts);
    }
  }

  lemma ContinuedIsDistinct(scan: ScanRun, attempts: seq<Attempt>, drawn: seq<Id>, i: nat, j: nat)
    requires Independent(scan, attempts) && DrawnFrom(attempts, drawn) && |drawn| <= |scan.supply|
    requires i < j < |scan.supply|
    ensures Continued(scan, drawn).supply[i] != Continued(scan, drawn).supply[j]
  {
    hide DrawnFrom;
    if i < |drawn| {
      var a := Drawn(attempts, drawn, i);
      if j < |drawn| {
        var b := Drawn(attempts, drawn, j);
        if a == b { DrawnIds(scan, attempts, a); }
      }
    }
  }

  lemma IndependentIsValid(scan: ScanRun, attempts: seq<Attempt>)
    requires Independent(scan, attempts)
    ensures scan.Valid()
  {
  }

  lemma ContinuedIsValid(scan: ScanRun, attempts: seq<Attempt>, drawn: seq<Id>)
    requires Independent(scan, attempts) && DrawnFrom(attempts, drawn) && |drawn| <= |scan.supply|
    ensures Continued(scan, drawn).Valid()
  {
    hide Independent, DrawnFrom;
    IndependentIsValid(scan, attempts);
    var supply := Continued(scan, drawn).supply;
    forall i: nat | i < |supply|
      ensures supply[i] !in scan.base
    {
      ContinuedIsNew(scan, attempts, drawn, i);
    }
    forall i: nat, j: nat | i < j < |supply|
      ensures supply[i] != supply[j]
    {
      ContinuedIsDistinct(scan, attempts, drawn, i, j);
    }
    forall i: nat | i < |scan.entries| ensures scan.s.inRoot(Continued(scan, drawn).KeyAt(i)) {
      assert scan.s.inRoot(scan.KeyAt(i));
    }
    forall i, j | 0 <= i < j < |scan.entries| ensures Continued(scan, drawn).KeyAt(i) != Continued(scan, drawn).KeyAt(j) {
      assert scan.KeyAt(i) != scan.KeyAt(j);
    }
  }

  /** A run over what the continued scan committed is a resumption of it. */
  lemma ContinuedIsResumed(scan: ScanRun, attempts: seq<Attempt>, drawn: seq<Id>)
    requires Independent(scan, attempts) && DrawnFrom(attempts, drawn) && |drawn| <= |scan.supply|
    ensures Continued(scan, drawn).Valid()
    ensures Resumes(Continued(scan, drawn), |drawn|, scan.(base := Continued(scan, drawn).Partial(|drawn|)))
  {
    hide ScanRun.Partial, ScanRun.State;
    var full, j := Continued(scan, drawn), |drawn|;
    ContinuedIsValid(scan, attempts, drawn);
    var again := scan.(base := full.Partial(j));
    forall i | 0 <= i < |scan.supply|
      ensures scan.supply[i] !in again.base
    {
      if scan.supply[i] in again.base {
        StoredIds(full, j, scan.supply[i]);
      }
    }
    forall id | id in again.base ensures again.base[id].id == id {
      PartialIsFiled(full, j, id);
    }
    forall i: nat | i < |scan.entries| ensures scan.s.inRoot(again.KeyAt(i)) {
      assert scan.s.inRoot(scan.KeyAt(i));
    }
    forall i, k | 0 <= i < k < |scan.entries| ensures again.KeyAt(i) != again.KeyAt(k) {
      assert scan.KeyAt(i) != scan.KeyAt(k);
    }
    assert again.supply[j..] == full.supply[j..];
  }

  /** What the cancelled runs committed is a prefix of one scan. */
  lemma {:induction false} AttemptsAreAPrefix(scan: ScanRun, attempts: seq<Attempt>) returns (drawn: seq<Id>)
    requires Independent(scan, attempts)
    ensures DrawnFrom(attempts, drawn) && |drawn| <= |scan.supply|
    ensures AfterAttempts(scan.s, scan.base, scan.entries, attempts) == Continued(scan, drawn).Partial(|drawn|)
    decreases |attempts|
  {
    hide Judge, ScanRun.Partial;
    if attempts == [] {
      drawn := [];
      assert Continued(scan, []).Partial(0) == scan.base by { StartIsBase(Continued(scan, [])); }
    } else {
      var before, last := attempts[..|attempts| - 1], attempts[|attempts| - 1];
      var run := scan.(supply := last.supply);
      var earlier := AttemptsAreAPrefix(run, before);
      var full, j := Continued(run, earlier), |earlier|;
      ContinuedIsResumed(run, before, earlier);
      ResumedScanAgrees(full, j, run.(base := full.Partial(j)), last.committed);
      var n := if last.committed < j then j else last.committed;
      drawn := full.supply[..n];
      ExtendedPrefixIsDrawn(attempts, earlier, run.supply, n);
      assert Continued(scan, drawn).supply[..n] == full.supply[..n];
      OnlyDrawnIdsMatter(Continued(scan, drawn), full, n);
    }
  }

  lemma ExtendedPrefixIsDrawn(attempts: seq<Attempt>, earlier: seq<Id>, supply: seq<Id>, n: nat)
    requires attempts != [] && attempts[|attempts| - 1].supply == supply
    requires DrawnFrom(attempts[..|attempts| - 1], earlier) && |earlier| <= n <= |supply|
    ensures DrawnFrom(attempts, (earlier + supply[|earlier|..])[..n])
  {
    var before, extended := attempts[..|attempts| - 1], (earlier + supply[|earlier|..])[..n];
    forall i: nat | i < |extended|
      ensures IsDrawn(attempts, i, extended[i])
    {
      if i < |earlier| {
        var a := Drawn(before, earlier, i);
        assert Drew(attempts, a, i, extended[i]);
      } else {
        assert Drew(attempts, |attempts| - 1, i, extended[i]);
      }
    }
  }

  lemma StartIsBase(scan: ScanRun)
    requires |scan.entries| == |scan.supply|
    ensures scan.Partial(0) == scan.base
  {
  }

  /**
   * Cancel a scan any number of times, anywhere, then let it finish: the store is the one a
   * single uninterrupted scan leaves, which draws for each new file the id it first drew.
   */
  lemma AnyInterruptionsConverge(scan: ScanRun, attempts: seq<Attempt>) returns (drawn: seq<Id>)
    requires Independent(scan, attempts)
    ensures DrawnFrom(attempts, drawn) && |drawn| <= |scan.supply|
    ensures Continued(scan, drawn).Valid()
    ensures scan.(base := AfterAttempts(scan.s, scan.base, scan.entries, attempts)).Outcome() == Continued(scan, drawn).Outcome()
  {
    drawn := AttemptsAreAPrefix(scan, attempts);
    ContinuedIsResumed(scan, attempts, drawn);
    var full := Continued(scan, drawn);
    InterruptedScanConverges(full, |drawn|, scan.(base := full.Partial(|drawn|)));
  }

  // ----- a second scan of the same tree -----

  /** Sizes and modification times by which a file can be recognised as unchanged. */
  ghost predicate Timestamped(entries: seq<FileEntry>) {
    forall i | 0 <= i < |entries| :: entries[i].identity.LooksUnchangedFrom(entries[i].identity)
  }

  lemma SecondVerdict(scan: ScanRun, again: ScanRun, i: nat)
    requires scan.Valid() && again.Valid() && Timestamped(scan.entries)
    requires again.s == scan.s && again.entries == scan.entries && again.base == scan.Outcome()
    requires i < |scan.entries|
    ensures !Stages(again.VerdictAt(i))
    ensures again.VerdictAt(i).Unhashable? <==> scan.VerdictAt(i).Unhashable?
    ensures scan.VerdictAt(i).Serves() ==> again.VerdictAt(i) == Unchanged(scan.VerdictAt(i).Served())
  {
    hide ScanRun.Partial, ScanRun.State;
    var v, n := scan.VerdictAt(i), |scan.entries|;
    OutcomeAt(scan, i);
    if v.Serves() {
      var id := v.Served();
      FirstIsUnique({id}, id, First({id}));
      assert again.base[id] == scan.Partial(n)[id];
      if Stages(v) {
        StagedRecord(scan, i);
        StagedIsStored(scan, n, i);
      } else {
        ServedIsAtItsPath(scan, i, n);
      }
    } else if v.Unhashable? {
      var known := At(scan.s, scan.base, scan.KeyAt(i));
      if known != {} {
        UntouchedAt(scan, n, i, First(known));
        assert First(known) in At(scan.s, scan.Outcome(), scan.KeyAt(i));
      }
    }
  }

  lemma {:induction false} SecondScanStagesNothing(scan: ScanRun, again: ScanRun, n: nat)
    requires scan.Valid() && again.Valid() && Timestamped(scan.entries)
    requires again.s == scan.s && again.entries == scan.entries && again.base == scan.Outcome()
    requires n <= |scan.entries|
    ensures again.State(n).log == []
    ensures again.State(n).seen == scan.State(n).seen && again.State(n).failed == scan.State(n).failed
  {
    hide Judge, ScanRun.Partial;
    if n > 0 {
      SecondScanStagesNothing(scan, again, n - 1);
      SecondVerdict(scan, again, n - 1);
      assert again.State(n) == Advance(again.State(n - 1), scan.KeyAt(n - 1), again.VerdictAt(n - 1));
      assert scan.State(n) == Advance(scan.State(n - 1), scan.KeyAt(n - 1), scan.VerdictAt(n - 1));
      NotServedUnlessMedia(scan, again, n - 1);
    }
  }

  lemma NotServedUnlessMedia(scan: ScanRun, again: ScanRun, i: nat)
    requires scan.Valid() && again.Valid() && again.entries == scan.entries && i < |scan.entries|
    ensures scan.VerdictAt(i).Skipped? <==> again.VerdictAt(i).Skipped?
  {
  }

  /** A second scan of the same tree stages nothing, removes nothing, and so commits nothing. */
  lemma SecondScanCommitsNothing(scan: ScanRun, again: ScanRun)
    requires scan.Valid() && again.Valid() && Timestamped(scan.entries)
    requires again.s == scan.s && again.entries == scan.entries && again.base == scan.Outcome()
    ensures again.State(|again.entries|).log == [] && again.Duplicates() == {}
    ensures again.Outcome() == scan.Outcome()
  {
    hide Judge, ScanRun.Partial, ScanRun.State;
    var n := |scan.entries|;
    SecondScanStagesNothing(scan, again, n);
    SameFiles(scan, again);
    forall id | id in scan.Outcome() && id !in scan.State(n).seen
      ensures id in scan.base && scan.base[id] == scan.Outcome()[id]
    {
      UnservedIsKept(scan, n, id);
    }
    assert again.Duplicates() == {};
    NothingStaged(again, n);
  }

  lemma NothingStaged(scan: ScanRun, n: nat)
    requires n <= |scan.entries| == |scan.supply| && scan.State(n).log == []
    ensures scan.Partial(n) == scan.base
  {
  }
}