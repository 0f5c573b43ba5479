/**
 * What a scan stages in the durable store, and when committing it keeps every original: the records
 * and originals of the files it judged, over whatever tombstones are staged already.
 */
module ScanStaging {
  import opened IdOrder
  import opened Media
  import opened ScanLaws
  import opened StagingLaws
  import opened CommitLaws
  import opened LoreStore
  import opened StoreRuns

  // ----- where originals go -----

  /** Managed paths lie under one directory, none is used for two ids, and none is a directory of another. */
  ghost predicate OwnPlaces(s: Setting) {
    && (forall id, fp, name :: "originals/" <= s.managedPathOf(id, fp, name))
    && (forall id, fp, name, id', fp', name' | s.managedPathOf(id, fp, name) == s.managedPathOf(id', fp', name') :: id == id')
    && forall id, fp, name, id', fp', name' :: !Beneath(s.managedPathOf(id, fp, name), s.managedPathOf(id', fp', name'))
  }

  /** A digest in hexadecimal: 64 characters, none of them a dot or a slash, and different for different texts. */
  ghost predicate IsDigest(sha: string -> string) {
    && (forall t :: |sha(t)| == 64 && '/' !in sha(t) && '.' !in sha(t))
    && forall t, u | sha(t) == sha(u) :: t == u
  }

  /** A suffix, with its dot, or nothing. */
  ghost predicate IsSuffix(suffixOf: string -> string) {
    forall name :: '/' !in suffixOf(name) && (suffixOf(name) == "" || (suffixOf(name)[0] == '.' && '.' !in suffixOf(name)[1..]))
  }

  /** The managed path of an original: by the digests of its id and of its content. */
  ghost function OriginalPath(sha: string -> string, suffixOf: string -> string, id: Id, fp: Fingerprint, name: string): Path
    requires IsDigest(sha)
  {
    "originals/" + sha(id)[..2] + "/" + sha(id) + "/" + sha(fp.digest) + suffixOf(name)
  }

  lemma PathLayout(sha: string -> string, suffixOf: string -> string, id: Id, fp: Fingerprint, name: string)
    requires IsDigest(sha) && IsSuffix(suffixOf)
    ensures var p := OriginalPath(sha, suffixOf, id, fp, name);
      && "originals/" <= p && |p| == 142 + |suffixOf(name)| && p[13..77] == sha(id) && p[142..] == suffixOf(name)
      && (forall k | 78 <= k < |p| :: p[k] != '/') && (forall k | 78 <= k < 142 :: p[k] != '.')
  {
    var head := "originals/" + sha(id)[..2] + "/" + sha(id) + "/";
    var p := OriginalPath(sha, suffixOf, id, fp, name);
    assert |head| == 78 && p == head + (sha(fp.digest) + suffixOf(name));
    assert head[13..77] == sha(id);
    forall k | 78 <= k < |p| ensures p[k] != '/' && (k < 142 ==> p[k] != '.') {
      assert p[k] == (sha(fp.digest) + suffixOf(name))[k - 78];
    }
  }

  /** The scanner's managed paths are each id's own. */
  lemma OriginalPathsAreOwn(s: Setting, sha: string -> string, suffixOf: string -> string)
    requires IsDigest(sha) && IsSuffix(suffixOf)
    requires forall id, fp, name :: s.managedPathOf(id, fp, name) == OriginalPath(sha, suffixOf, id, fp, name)
    ensures OwnPlaces(s)
  {
    hide OriginalPath;
    forall id, fp, name, id', fp', name'
      ensures "originals/" <= s.managedPathOf(id, fp, name)
      ensures s.managedPathOf(id, fp, name) == s.managedPathOf(id', fp', name') ==> id == id'
      ensures !Beneath(s.managedPathOf(id, fp, name), s.managedPathOf(id', fp', name'))
    {
      PathLayout(sha, suffixOf, id, fp, name);
      PathLayout(sha, suffixOf, id', fp', name');
    }
  }

  /** And a commit can use them, unless the file is named like a half-written one. */
  lemma UsableExactlyWhen(sha: string -> string, suffixOf: string -> string, id: Id, fp: Fingerprint, name: string)
    requires IsDigest(sha) && IsSuffix(suffixOf)
    ensures UsablePath(OriginalPath(sha, suffixOf, id, fp, name)) <==> suffixOf(name) != ".part"
  {
    hide OriginalPath;
    var p, suffix := OriginalPath(sha, suffixOf, id, fp, name), suffixOf(name);
    PathLayout(sha, suffixOf, id, fp, name);
    if IsPartial(p) {
      assert p[|p| - 5] == '.';
      assert |suffix| >= 5;
      assert suffix[|suffix| - 5] == p[|p| - 5];
      assert forall k | 0 < k < |suffix| :: suffix[k] == suffix[1..][k - 1];
      assert suffix == p[|p| - 5..];
    }
  }

  /** A managed record has a place of its own id. */
  ghost predicate Placed(s: Setting, r: Record) {
    r.storage == Managed ==> exists fp, name :: r.managedPath == s.managedPathOf(r.id, fp, name)
  }

  ghost predicate AllPlaced(s: Setting, records: Records) {
    forall id | id in records :: records[id].id == id && Placed(s, records[id])
  }

  /** The ids in play have record files of their own. */
  ghost predicate OwnFiles(env: Env, scan: ScanRun) {
    forall x, y | x in Ids(scan) && y in Ids(scan) && env.nameOf(x) == env.nameOf(y) :: x == y
  }

  function Ids(scan: ScanRun): set<Id> {
    scan.base.Keys + set id | id in scan.supply
  }

  /** The record files of a tree hold these records. */
  ghost predicate FiledAs(env: Env, files: map<FileName, Record>, records: Records) {
    && (forall f | f in files :: files[f].id in records && files[f] == records[files[f].id] && env.nameOf(files[f].id) == f)
    && forall id | id in records :: env.nameOf(id) in files && files[env.nameOf(id)].id == id
  }

  // ----- what is staged for the entries `j` to `n` -----

  /** The original comes along, unless the record keeps the place it had. */
  ghost predicate Brings(scan: ScanRun, i: nat)
    requires i < |scan.entries| == |scan.supply| && Stages(scan.VerdictAt(i))
  {
    var r := scan.VerdictAt(i).record;
    || r.id !in scan.base || scan.base[r.id].managedPath != r.managedPath
    || (At(scan.s, scan.base, scan.KeyAt(i)) == {} && scan.base[r.id].storage != Managed)
  }

  ghost function StagedBy(env: Env, scan: ScanRun, content: nat -> Bytes, j: nat, n: nat, gone: set<FileName>): Staging
    requires j <= n <= |scan.entries| == |scan.supply|
  {
    if n == j then Staging(map[], gone, map[])
    else WithVerdict(env, scan, StagedBy(env, scan, content, j, n - 1, gone), n - 1, content(n - 1))
  }

  ghost function WithVerdict(env: Env, scan: ScanRun, st: Staging, i: nat, bytes: Bytes): Staging
    requires i < |scan.entries| == |scan.supply|
  {
    if !Stages(scan.VerdictAt(i)) then st
    else
      var r := scan.VerdictAt(i).record;
      Staging(st.records[env.nameOf(r.id) := r], st.tombstones,
              if Brings(scan, i) then st.originals[r.managedPath := bytes] else st.originals)
  }

  /** Entry `i`, one of `j` to `n`, is what record file `f` was staged for. */
  ghost predicate StagedFor(env: Env, scan: ScanRun, i: nat, f: FileName)
    requires |scan.entries| == |scan.supply|
  {
    i < |scan.entries| && Stages(scan.VerdictAt(i)) && env.nameOf(scan.VerdictAt(i).record.id) == f
  }

  lemma VerdictIsPlaced(scan: ScanRun, i: nat)
    requires scan.Valid() && i < |scan.entries| && Stages(scan.VerdictAt(i))
    ensures var r := scan.VerdictAt(i).record;
      && r.id in Ids(scan) && r.storage == Managed && Placed(scan.s, r)
      && scan.Serves(i, r.id)
  {
    ServedFrom(scan, i);
    ReconciledByVerdict(scan, i);
  }

  /** Two entries never stage the same record file, nor the same original. */
  lemma StagedApart(env: Env, scan: ScanRun, i: nat, k: nat)
    requires scan.Valid() && OwnPlaces(scan.s) && OwnFiles(env, scan)
    requires i < k < |scan.entries| && Stages(scan.VerdictAt(i)) && Stages(scan.VerdictAt(k))
    ensures env.nameOf(scan.VerdictAt(i).record.id) != env.nameOf(scan.VerdictAt(k).record.id)
    ensures scan.VerdictAt(i).record.managedPath != scan.VerdictAt(k).record.managedPath
  {
    hide Judge, Beneath;
    NoIdServesTwice(scan, i, k);
    VerdictIsPlaced(scan, i);
    VerdictIsPlaced(scan, k);
  }

  lemma {:induction false} StagedInClosedForm(env: Env, scan: ScanRun, content: nat -> Bytes, j: nat, n: nat, gone: set<FileName>)
    requires j <= n <= |scan.entries| == |scan.supply|
    ensures var st := StagedBy(env, scan, content, j, n, gone);
      && st.tombstones == gone
      && (forall f | f in st.records :: exists i: nat | j <= i < n :: StagedFor(env, scan, i, f) && st.records[f] == scan.VerdictAt(i).record)
      && (forall p | p in st.originals :: exists i: nat | j <= i < n :: Places(scan, i, p))
  {
    hide Judge, Brings;
    if n > j {
      StagedInClosedForm(env, scan, content, j, n - 1, gone);
      var before, st := StagedBy(env, scan, content, j, n - 1, gone), StagedBy(env, scan, content, j, n, gone);
      forall f | f in st.records
        ensures exists i: nat | j <= i < n :: StagedFor(env, scan, i, f) && st.records[f] == scan.VerdictAt(i).record
      {
        if Stages(scan.VerdictAt(n - 1)) && env.nameOf(scan.VerdictAt(n - 1).record.id) == f {
          assert StagedFor(env, scan, n - 1, f);
        } else {
          assert f in before.records;
        }
      }
      forall p | p in st.originals
        ensures exists i: nat | j <= i < n :: Places(scan, i, p)
      {
        if p !in before.originals {
          assert Places(scan, n - 1, p);
        }
      }
    }
  }

  /** Entry `i` stages a record whose original belongs at `p`. */
  ghost predicate Places(scan: ScanRun, i: nat, p: Path)
    requires |scan.entries| == |scan.supply|
  {
    i < |scan.entries| && Stages(scan.VerdictAt(i)) && scan.VerdictAt(i).record.managedPath == p
  }

  /** Each entry's record is staged, with its original exactly if that comes along. */
  lemma {:induction false} StagedEntry(env: Env, scan: ScanRun, content: nat -> Bytes, j: nat, n: nat, gone: set<FileName>, i: nat)
    requires scan.Valid() && OwnPlaces(scan.s) && OwnFiles(env, scan)
    requires j <= i < n <= |scan.entries| && Stages(scan.VerdictAt(i))
    ensures var st := StagedBy(env, scan, content, j, n, gone); var r := scan.VerdictAt(i).record; var f := env.nameOf(r.id);
      && f in st.records && st.records[f] == r
      && (r.managedPath in st.originals <==> Brings(scan, i))
      && (Brings(scan, i) ==> st.originals[r.managedPath] == content(i))
  {
    hide Judge, Brings, ScanRun.Valid, OwnPlaces, OwnFiles;
    SizesMatch(scan);
    var p := scan.VerdictAt(i).record.managedPath;
    if i == n - 1 {
      StagedInClosedForm(env, scan, content, j, n - 1, gone);
      forall k: nat | j <= k < n - 1 && Places(scan, k, p) ensures false {
        StagedApart(env, scan, k, i);
      }
    } else {
      StagedEntry(env, scan, content, j, n - 1, gone, i);
      if Stages(scan.VerdictAt(n - 1)) {
        StagedApart(env, scan, i, n - 1);
      }
    }
  }

  // ----- what is staged fits the store -----

  lemma {:induction false} PartialIsPlaced(scan: ScanRun, n: nat)
    requires scan.Valid() && n <= |scan.entries| && AllPlaced(scan.s, scan.base)
    ensures AllPlaced(scan.s, scan.Partial(n)) && scan.Partial(n).Keys <= Ids(scan)
  {
    hide Judge, Placed;
    if n > 0 {
      PartialIsPlaced(scan, n - 1);
      PartialStep(scan, n);
      if Stages(scan.VerdictAt(n - 1)) { VerdictIsPlaced(scan, n - 1); }
    }
  }

  /** Records in places and files of their own do not share them. */
  lemma InOrder(env: Env, s: Setting, a: map<FileName, Record>, b: map<FileName, Record>, ids: set<Id>)
    requires OwnPlaces(s) && forall x, y | x in ids && y in ids && env.nameOf(x) == env.nameOf(y) :: x == y
    requires forall f | f in a :: a[f].id in ids && env.nameOf(a[f].id) == f && Placed(s, a[f])
    requires forall f | f in b :: b[f].id in ids && env.nameOf(b[f].id) == f && Placed(s, b[f])
    ensures Named(env, a) && OneOwner(a, b)
  {
    hide Beneath;
  }

  /**
   * What a scan stages over a store that holds its records is fit to be committed exactly when no
   * original is named like a half-written one, and no record that keeps its original is staged
   * beside its own tombstone.
   */
  lemma ScanIsFitExactlyWhen(env: Env, tree: Tree, scan: ScanRun, content: nat -> Bytes, j: nat, n: nat, gone: set<FileName>)
    requires scan.Valid() && OwnPlaces(scan.s) && OwnFiles(env, scan) && AllPlaced(scan.s, scan.base)
    requires j <= n <= |scan.entries| && FiledAs(env, tree.records, scan.Partial(j)) && UsablePaths(tree.records)
    ensures Fit(env, tree, StagedBy(env, scan, content, j, n, gone)) <==>
      forall i: nat | j <= i < n && Stages(scan.VerdictAt(i)) :: Keeps(env, scan, i, gone)
  {
    hide Judge, Brings, Placed, OwnFiles, OwnPlaces, ScanRun.Valid, ScanRun.Partial, WellFormed, LosesOriginal, NotNested, StagedBy, IsPartial, Keeps;
    SizesMatch(scan);
    var st := StagedBy(env, scan, content, j, n, gone);
    ScanIsInOrder(env, tree, scan, content, j, n, gone);
    ScanIsNotNested(env, scan, content, j, n, gone);
    StagedInClosedForm(env, scan, content, j, n, gone);
    forall i: nat | j <= i < n && Stages(scan.VerdictAt(i))
      ensures var f := env.nameOf(scan.VerdictAt(i).record.id);
        f in st.records && (Keeps(env, scan, i, gone) <==> !IsPartial(st.records[f].managedPath) && !LosesOriginal(st, f))
    {
      LosesWhen(env, scan, content, j, n, gone, i);
    }
    if forall i: nat | j <= i < n && Stages(scan.VerdictAt(i)) :: Keeps(env, scan, i, gone) {
      forall f | f in st.records
        ensures !IsPartial(st.records[f].managedPath) && !LosesOriginal(st, f)
      {
        var i: nat :| j <= i < n && StagedFor(env, scan, i, f);
        assert Keeps(env, scan, i, gone);
      }
    }
  }

  /** The record of entry `i` finds its original: it is published, or it stays where it is. */
  ghost predicate Keeps(env: Env, scan: ScanRun, i: nat, gone: set<FileName>)
    requires i < |scan.entries| == |scan.supply| && Stages(scan.VerdictAt(i))
  {
    var r := scan.VerdictAt(i).record;
    !IsPartial(r.managedPath) && (Brings(scan, i) || env.nameOf(r.id) !in gone)
  }

  lemma ScanIsInOrder(env: Env, tree: Tree, scan: ScanRun, content: nat -> Bytes, j: nat, n: nat, gone: set<FileName>)
    requires scan.Valid() && OwnPlaces(scan.s) && OwnFiles(env, scan) && AllPlaced(scan.s, scan.base)
    requires j <= n <= |scan.entries| && FiledAs(env, tree.records, scan.Partial(j)) && UsablePaths(tree.records)
    ensures var st := StagedBy(env, scan, content, j, n, gone);
      WellFormed(env, tree, st) <==> forall f | f in st.records :: !IsPartial(st.records[f].managedPath)
  {
    hide Judge, Placed, OwnPlaces, ScanRun.Valid, ScanRun.Partial, StagedBy, IsPartial;
    SizesMatch(scan);
    var st := StagedBy(env, scan, content, j, n, gone);
    PartialIsPlaced(scan, j);
    StagedInClosedForm(env, scan, content, j, n, gone);
    forall f | f in st.records
      ensures st.records[f].id in Ids(scan) && env.nameOf(st.records[f].id) == f && Placed(scan.s, st.records[f])
      ensures ManagedAt(st.records, f) && "originals/" <= st.records[f].managedPath
    {
      var i: nat :| j <= i < n && StagedFor(env, scan, i, f) && st.records[f] == scan.VerdictAt(i).record;
      VerdictIsPlaced(scan, i);
      PlaceIsInside(scan.s, st.records[f]);
    }
    InOrder(env, scan.s, tree.records, tree.records, Ids(scan));
    InOrder(env, scan.s, tree.records, st.records, Ids(scan));
    InOrder(env, scan.s, st.records, st.records, Ids(scan));
  }

  lemma PlaceIsInside(s: Setting, r: Record)
    requires OwnPlaces(s) && Placed(s, r) && r.storage == Managed
    ensures "originals/" <= r.managedPath
  {
    hide Beneath;
  }

  lemma ScanIsNotNested(env: Env, scan: ScanRun, content: nat -> Bytes, j: nat, n: nat, gone: set<FileName>)
    requires scan.Valid() && OwnPlaces(scan.s) && j <= n <= |scan.entries|
    ensures NotNested(StagedBy(env, scan, content, j, n, gone).originals.Keys)
  {
    hide Judge, Beneath, ScanRun.Valid, StagedBy;
    SizesMatch(scan);
    var st := StagedBy(env, scan, content, j, n, gone);
    StagedInClosedForm(env, scan, content, j, n, gone);
    forall p | p in st.originals
      ensures exists id, fp, name :: p == scan.s.managedPathOf(id, fp, name)
    {
      var i: nat :| j <= i < n && Places(scan, i, p);
      VerdictIsPlaced(scan, i);
    }
  }

  lemma LosesWhen(env: Env, scan: ScanRun, content: nat -> Bytes, j: nat, n: nat, gone: set<FileName>, i: nat)
    requires scan.Valid() && OwnPlaces(scan.s) && OwnFiles(env, scan)
    requires j <= i < n <= |scan.entries| && Stages(scan.VerdictAt(i))
    ensures var st := StagedBy(env, scan, content, j, n, gone); var f := env.nameOf(scan.VerdictAt(i).record.id);
      f in st.records && (Keeps(env, scan, i, gone) <==> !IsPartial(st.records[f].managedPath) && !LosesOriginal(st, f))
  {
    hide Judge, Brings, Beneath, ScanRun.Valid, StagedBy, OwnFiles;
    SizesMatch(scan);
    var st, p := StagedBy(env, scan, content, j, n, gone), scan.VerdictAt(i).record.managedPath;
    StagedInClosedForm(env, scan, content, j, n, gone);
    StagedEntry(env, scan, content, j, n, gone, i);
    VerdictIsPlaced(scan, i);
    forall q | q in st.originals
      ensures !Beneath(p, q)
    {
      var k: nat :| j <= k < n && Places(scan, k, q);
      VerdictIsPlaced(scan, k);
    }
  }

  // ----- what committing it makes of the store -----

  function FilesOf(env: Env, ids: set<Id>): set<FileName> {
    set id | id in ids :: env.nameOf(id)
  }

  /** Filing one more record under its own name. */
  lemma FiledOneMore(env: Env, files: map<FileName, Record>, records: Records, r: Record, ids: set<Id>)
    requires FiledAs(env, files, records) && records.Keys <= ids && r.id in ids
    requires forall x, y | x in ids && y in ids && env.nameOf(x) == env.nameOf(y) :: x == y
    ensures FiledAs(env, files[env.nameOf(r.id) := r], records[r.id := r])
  {
  }

  lemma FiledFewer(env: Env, files: map<FileName, Record>, records: Records, drop: set<Id>, ids: set<Id>)
    requires FiledAs(env, files, records) && records.Keys <= ids && drop <= ids
    requires forall x, y | x in ids && y in ids && env.nameOf(x) == env.nameOf(y) :: x == y
    ensures FiledAs(env, files - FilesOf(env, drop), records - drop)
  {
  }

  lemma StagedStep(env: Env, scan: ScanRun, content: nat -> Bytes, j: nat, n: nat, gone: set<FileName>)
    requires scan.Valid() && j <= n <= |scan.entries|
    ensures StagedBy(env, scan, content, j, j, gone).records == map[]
    ensures j < n ==> var before, v := StagedBy(env, scan, content, j, n - 1, gone).records, scan.VerdictAt(n - 1);
      StagedBy(env, scan, content, j, n, gone).records == if Stages(v) then before[env.nameOf(v.record.id) := v.record] else before
  {
    hide Judge, Brings;
  }

  lemma {:induction false} RecordsOfScan(env: Env, files: map<FileName, Record>, scan: ScanRun, content: nat -> Bytes, j: nat, n: nat, drop: set<Id>)
    requires scan.Valid() && OwnFiles(env, scan) && AllPlaced(scan.s, scan.base)
    requires j <= n <= |scan.entries| && FiledAs(env, files, scan.Partial(j)) && drop <= Ids(scan)
    requires forall i: nat | j <= i < n && Stages(scan.VerdictAt(i)) :: scan.VerdictAt(i).record.id !in drop
    ensures FiledAs(env, files - FilesOf(env, drop) + StagedBy(env, scan, content, j, n, FilesOf(env, drop)).records, scan.Partial(n) - drop)
  {
    hide Judge, Placed, ScanRun.Valid, ScanRun.Partial, FiledAs, StagedBy, AllPlaced, FilesOf;
    SizesMatch(scan);
    var gone := FilesOf(env, drop);
    StagedStep(env, scan, content, j, n, gone);
    PartialIsPlaced(scan, n);
    if n == j {
      FiledFewer(env, files, scan.Partial(n), drop, Ids(scan));
      assert files - gone + map[] == files - gone;
    } else {
      RecordsOfScan(env, files, scan, content, j, n - 1, drop);
      PartialIsPlaced(scan, n - 1);
      PartialStep(scan, n);
      if Stages(scan.VerdictAt(n - 1)) {
        var r, before := scan.VerdictAt(n - 1).record, StagedBy(env, scan, content, j, n - 1, gone).records;
        VerdictIsPlaced(scan, n - 1);
        FiledOneMore(env, files - gone + before, scan.Partial(n - 1) - drop, r, Ids(scan));
        assert scan.Partial(n) - drop == (scan.Partial(n - 1) - drop)[r.id := r];
        assert files - gone + before[env.nameOf(r.id) := r] == (files - gone + before)[env.nameOf(r.id) := r];
      }
    }
  }

  /**
   * The commit of a batch refines the scan's own account of it: the tree holds the records of the
   * longer prefix, less those that were removed.
   */
  lemma CommittedScan(env: Env, tree: Tree, scan: ScanRun, content: nat -> Bytes, j: nat, n: nat, drop: set<Id>)
    requires scan.Valid() && OwnFiles(env, scan) && AllPlaced(scan.s, scan.base)
    requires j <= n <= |scan.entries| && FiledAs(env, tree.records, scan.Partial(j)) && drop <= Ids(scan)
    requires forall i: nat | j <= i < n && Stages(scan.VerdictAt(i)) :: scan.VerdictAt(i).record.id !in drop
    ensures FiledAs(env, Applied(env, tree, StagedBy(env, scan, content, j, n, FilesOf(env, drop))).records, scan.Partial(n) - drop)
  {
    hide Judge, ScanRun.Valid, ScanRun.Partial, Applied, FiledAs, StagedBy;
    SizesMatch(scan);
    var gone := FilesOf(env, drop);
    RecordsOfScan(env, tree.records, scan, content, j, n, drop);
    AppliedRecords(env, tree, StagedBy(env, scan, content, j, n, gone));
    StagedInClosedForm(env, scan, content, j, n, gone);
  }

  lemma DuplicatesAreNotStaged(scan: ScanRun, i: nat)
    requires scan.Valid() && i < |scan.entries| && Stages(scan.VerdictAt(i))
    ensures scan.VerdictAt(i).record.id !in scan.Duplicates()
    ensures scan.Duplicates() <= Ids(scan)
  {
    hide Judge;
    VerdictIsPlaced(scan, i);
    ServingIsSeen(scan, i, scan.VerdictAt(i).record.id);
  }

  /**
   * With nothing staged before, every commit of a scan is fit, also the last one, which removes the
   * duplicates, and together they leave the outcome of the scan.
   */
  lemma EveryCommitOfAScanIsFit(env: Env, tree: Tree, scan: ScanRun, content: nat -> Bytes, j: nat, n: nat)
    requires scan.Valid() && OwnPlaces(scan.s) && OwnFiles(env, scan) && AllPlaced(scan.s, scan.base)
    requires j <= n <= |scan.entries| && FiledAs(env, tree.records, scan.Partial(j)) && UsablePaths(tree.records)
    requires forall i: nat | j <= i < n && Stages(scan.VerdictAt(i)) :: !IsPartial(scan.VerdictAt(i).record.managedPath)
    ensures var st := StagedBy(env, scan, content, j, n, {});
      Fit(env, tree, st) && FiledAs(env, Applied(env, tree, st).records, scan.Partial(n))
    ensures var st := StagedBy(env, scan, content, j, n, FilesOf(env, scan.Duplicates()));
      n == |scan.entries| ==> Fit(env, tree, st) && FiledAs(env, Applied(env, tree, st).records, scan.Outcome())
  {
    hide Judge, Brings, Placed, OwnPlaces, OwnFiles, ScanRun.Valid, ScanRun.Partial, ScanRun.Duplicates, Applied, FiledAs, Fit, IsPartial, StagedBy;
    SizesMatch(scan);
    ScanIsFitExactlyWhen(env, tree, scan, content, j, n, {});
    CommittedScan(env, tree, scan, content, j, n, {});
    assert FilesOf(env, {}) == {} && scan.Partial(n) - {} == scan.Partial(n);
    var gone := FilesOf(env, scan.Duplicates());
    NobodyStagesADuplicate(env, scan);
    ScanIsFitExactlyWhen(env, tree, scan, content, j, n, gone);
    CommittedScan(env, tree, scan, content, j, n, scan.Duplicates());
  }

  lemma NobodyStagesADuplicate(env: Env, scan: ScanRun)
    requires scan.Valid() && OwnFiles(env, scan)
    ensures scan.Duplicates() <= Ids(scan)
    ensures forall i: nat | i < |scan.entries| && Stages(scan.VerdictAt(i)) ::
      scan.VerdictAt(i).record.id !in scan.Duplicates() && env.nameOf(scan.VerdictAt(i).record.id) !in FilesOf(env, scan.Duplicates())
  {
    hide Judge, ScanRun.Valid;
    SizesMatch(scan);
    forall i: nat | i < |scan.entries| && Stages(scan.VerdictAt(i))
      ensures scan.VerdictAt(i).record.id !in scan.Duplicates() && scan.VerdictAt(i).record.id in Ids(scan)
    {
      DuplicatesAreNotStaged(scan, i);
      VerdictIsPlaced(scan, i);
    }
  }

  // ----- how a scan goes wrong -----

  /** Two records of one source file, as earlier versions left them: the first in id order, and the sample. */
  const FIRST := SAMPLE.(id := "A", fingerprint := Fingerprint("sha256", "x"), managedPath := "originals/A")

  const BOTH: Records := map["A" := FIRST, "a" := SAMPLE]

  /** The file as it was, and a file of the sample's content under another name. */
  ghost predicate MovedAway(s: Setting, was: FileEntry, now: FileEntry) {
    && was.identity == SAMPLE.identity && was.kind == Image && now.kind == Image
    && s.keyOf("/a.jpg") != s.keyOf(now.identity.absolutePath) && s.inRoot(s.keyOf("/a.jpg"))
    && now.fingerprint == Some(SAMPLE.fingerprint) && s.managedPathOf("a", SAMPLE.fingerprint, now.fileName) == SAMPLE.managedPath
  }

  /**
   * A scan removes the sample as a duplicate. If that is not committed, and the file was renamed in
   * the meantime, the next scan takes the sample to be moved, and keeps its original where it is.
   */
  lemma RemovedThenMoved(s: Setting, was: FileEntry, now: FileEntry, x: Id, y: Id)
    requires MovedAway(s, was, now)
    ensures "a" in ScanRun(s, BOTH, [was], [x]).Duplicates()
    ensures var again := ScanRun(s, BOTH, [now], [y]);
      again.VerdictAt(0) == Updated(Reconciled(s, SAMPLE, now, SAMPLE.fingerprint)) && !Brings(again, 0)
  {
    hide Before, OwnPlaces;
    BothAreThere(s, was, now);
    var scan, again := ScanRun(s, BOTH, [was], [x]), ScanRun(s, BOTH, [now], [y]);
    assert scan.KeyAt(0) in scan.Found();
    assert scan.VerdictAt(0) == Unchanged("A");
    assert scan.State(1) == Advance(scan.State(0), scan.KeyAt(0), scan.VerdictAt(0));
    assert again.State(0) == START;
    assert forall key | key in again.Found() :: key == again.KeyAt(0);
  }

  lemma BothAreThere(s: Setting, was: FileEntry, now: FileEntry)
    requires MovedAway(s, was, now)
    ensures At(s, BOTH, Key(s, was)) == {"A", "a"} && First({"A", "a"}) == "A"
    ensures At(s, BOTH, Key(s, now)) == {}
    ensures MoveCandidates(s, BOTH, {Key(s, now)}, {}, "d") == {"a"} && First({"a"}) == "a"
  {
    assert Before("A", "a");
    assert IsFirst("A", {"A", "a"}) && IsFirst("a", {"a"});
    FirstIsUnique({"A", "a"}, "A", First({"A", "a"}));
    FirstIsUnique({"a"}, "a", First({"a"}));
  }

  /** A record that keeps its place, staged over its own tombstone, is committed without its original. */
  lemma MovedOverATombstone(env: Env, base: Tree, f: FileName, r: Record)
    requires Sound(env, base) && ManagedAt(base.records, f)
    requires r.id == base.records[f].id && r.storage == Managed
    requires r.managedPath == base.records[f].managedPath && r.fingerprint == base.records[f].fingerprint
    ensures var st := Staging(map[f := r], {f}, map[]);
      && Cleaned(st) == st && OneOwner(st.records, st.records) && Workable(env, base, st) && Accepts(env, base, st)
      && ManagedAt(Applied(env, base, st).records, f) && !Matched(env, Applied(env, base, st))
  {
    hide Applied, Accepts, Matched, Removable, EditsDeclared;
    var st := Staging(map[f := r], {f}, map[]);
    UneditedCheckout(env, base);
    MovedIsInOrder(env, base, f, r);
    MovedIsAccepted(env, base, f, r);
    CleanedIsReferenced(st);
    assert Cleaned(st) == st;
    assert LosesOriginal(st, f);
    NoDirectoryIsRemoved(env, base, base, st);
    OriginalsMatchExactlyWhen(env, base, base, st);
    AppliedRecord(env, base, st, f);
  }

  lemma MovedIsInOrder(env: Env, base: Tree, f: FileName, r: Record)
    requires WellFormed(env, base, EMPTY_STAGING) && ManagedAt(base.records, f)
    requires r.id == base.records[f].id && r.managedPath == base.records[f].managedPath
    ensures WellFormed(env, base, Staging(map[f := r], {f}, map[]))
  {
  }

  lemma MovedIsAccepted(env: Env, base: Tree, f: FileName, r: Record)
    requires Sound(env, base) && ManagedAt(base.records, f)
    requires r.id == base.records[f].id && r.storage == Managed
    requires r.managedPath == base.records[f].managedPath && r.fingerprint == base.records[f].fingerprint
    ensures Accepts(env, base, Staging(map[f := r], {f}, map[]))
  {
    hide ExpectedDigests, PreviousDigests, IsDirectory;
    assert FileMatches(env, base.originals, base.records[f].managedPath, base.records[f].fingerprint.digest);
    assert env.nameOf(base.records[f].id) == f;
    assert f in map[f := r].Keys;
  }

  /**
   * By a run of the store: the scan's removal of the sample is staged, the process ends, the next one
   * stages the moved sample and commits. The original is gone, and the record is still there.
   */
  method AMovedRecordLosesItsOriginal(store: LoreDurableStore, s: Setting, was: FileEntry, now: FileEntry)
    requires MovedAway(s, was, now) && store.env.nameOf("a") == "a.json"
    requires store.isOpen && store.Healthy() && store.staging == EMPTY_STAGING
    requires store.committed == store.checkout == store.index && Sound(store.env, store.committed)
    requires "a.json" in store.committed.records && store.committed.records["a.json"] == SAMPLE
    modifies store
    ensures ManagedAt(store.committed.records, "a.json") && !Matched(store.env, store.committed)
    ensures store.staging == EMPTY_STAGING && store.checkout == store.committed
  {
    hide Sound, Matched, Workable, Accepts, Applied, EditsDeclared, OneOwner, MovedAway;
    var p := store.Remove("a");
    store.Exit();
    var ok := store.Open();
    var record := Reconciled(s, SAMPLE, now, SAMPLE.fingerprint);
    StaysInItsPlace(s, was, now);
    p := store.Stage(record);
    assert store.staging == Staging(map["a.json" := record], {"a.json"}, map[]);
    MovedOverATombstone(store.env, store.committed, "a.json", record);
    UneditedCheckout(store.env, store.committed);
    var outcome, published, intact := store.Commit();
  }

  lemma StaysInItsPlace(s: Setting, was: FileEntry, now: FileEntry)
    requires MovedAway(s, was, now)
    ensures var r := Reconciled(s, SAMPLE, now, SAMPLE.fingerprint);
      r.id == "a" && r.storage == Managed && r.managedPath == SAMPLE.managedPath && r.fingerprint == SAMPLE.fingerprint
  {
  }

  /** A file named like a half-written one: its original is cleared away, and its record then refused, at every commit. */
  method APartialNameIsRefused(env: Env, bytes: Bytes) returns (store: LoreDurableStore, outcome: CommitOutcome)
    requires env.nameOf("a") == "a.json" && env.hash(bytes) == "d" && env.inside("originals/a.part")
    ensures outcome == Rejected && store.committed == Tree(map[], map[])
    ensures "a.json" in store.staging.records && store.staging.originals == map[]
  {
    hide Accepts, Applied, EditsDeclared, OneOwner, Workable;
    var r := SAMPLE.(managedPath := "originals/a.part");
    store := new LoreDurableStore(env, _ => NoFault);
    var ok := store.Open();
    assert "originals/" <= r.managedPath;
    var p := store.StageOriginal(r, bytes);
    assert store.staging == Staging(map["a.json" := r], {}, map["originals/a.part" := bytes]);
    PartialIsRefused(env, store.staging, r);
    var published, intact;
    outcome, published, intact := store.Commit();
  }

  lemma PartialIsRefused(env: Env, st: Staging, r: Record)
    requires r == SAMPLE.(managedPath := "originals/a.part") && st.records == map["a.json" := r] && st.tombstones == {}
    requires st.originals.Keys == {"originals/a.part"}
    ensures Cleaned(st) == Staging(st.records, {}, map[]) && OneOwner(st.records, st.records)
    ensures !Accepts(env, Tree(map[], map[]), Cleaned(st))
  {
    hide ExpectedDigests, PreviousDigests;
    assert IsPartial("originals/a.part");
    assert Cleaned(st) == Staging(st.records, {}, map[]);
    assert !RecordValid(env, Tree(map[], map[]), Cleaned(st), "a.json");
  }
}
