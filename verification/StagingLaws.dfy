/**
 * What a commit means: the tree of records and originals that results from applying a
 * staging area to a checkout, and the laws that meaning obeys.
 */
module StagingLaws {
  import opened Media

  type FileName = string

  /**
   * The digest of a file's bytes, the file a record id is stored in, and whether a relative
   * path is spelled without detours and resolves inside the checkout.
   */
  datatype Env = Env(hash: Bytes -> Digest, nameOf: Id -> FileName, inside: Path -> bool) {
    predicate ValidOriginal(p: Path) { "originals/" <= p && inside(p) }
  }

  /** One version of the repository: record files by name, original files by relative path. */
  datatype Tree = Tree(records: map<FileName, Record>, originals: map<Path, Bytes>)

  datatype Staging = Staging(records: map<FileName, Record>, tombstones: set<FileName>,
                             originals: map<Path, Bytes>)

  const EMPTY_STAGING := Staging(map[], {}, map[])

  // ----- reading trees -----

  predicate ManagedAt(records: map<FileName, Record>, f: FileName) {
    f in records && records[f].storage == Managed
  }

  /** The file `a` would have to be a directory for `b` to exist. */
  predicate Beneath(a: Path, b: Path) {
    |a| < |b| && b[..|a|] == a && b[|a|] == '/'
  }

  /** Other files lie below `p`; the empty relative path names the directory of them all. */
  predicate IsDirectory(files: map<Path, Bytes>, p: Path) {
    p == "" || exists q | q in files :: Beneath(p, q)
  }

  /** Something is there: a file or a directory. */
  predicate FileExists(files: map<Path, Bytes>, p: Path) {
    p in files || IsDirectory(files, p)
  }

  lemma BeneathExactlyWhen(a: Path, b: Path)
    ensures Beneath(a, b) <==> exists rest: Path :: b == a + "/" + rest
  {
    if Beneath(a, b) {
      assert b == a + "/" + b[|a| + 1..];
    }
  }

  /** A directory is what some file has before a slash; the empty path is one anyway. */
  lemma DirectoryExactlyWhen(files: map<Path, Bytes>, p: Path)
    ensures IsDirectory(files, p) <==> p == "" || exists rest: Path :: p + "/" + rest in files
  {
    forall q | q in files ensures Beneath(p, q) <==> exists rest: Path :: q == p + "/" + rest {
      BeneathExactlyWhen(p, q);
    }
  }

  /** A file can be written at `p`: nothing on the way to it is a file, and it is no directory. */
  predicate FileFits(files: map<Path, Bytes>, p: Path) {
    forall q | q in files :: !Beneath(q, p) && !Beneath(p, q)
  }

  /** None of these paths lies below another. */
  ghost predicate NotNested(paths: set<Path>) {
    forall a, b | a in paths && b in paths :: !Beneath(a, b)
  }

  predicate FileMatches(env: Env, files: map<Path, Bytes>, p: Path, digest: Digest) {
    p in files && env.hash(files[p]) == digest
  }

  /** Staged record file `f` lays claim to original `p`. */
  predicate Claims(st: Staging, f: FileName, p: Path) {
    ManagedAt(st.records, f) && st.records[f].managedPath == p && p != ""
  }

  function ExpectedOriginals(st: Staging): set<Path> {
    set f | f in st.records && Claims(st, f, st.records[f].managedPath) :: st.records[f].managedPath
  }

  predicate IsPartial(p: Path) {
    |p| >= 5 && p[|p| - 5..] == ".part"
  }

  lemma PartialExactlyWhen(p: Path)
    ensures IsPartial(p) <==> exists stem: Path :: p == stem + ".part"
  {
    if IsPartial(p) {
      assert p == p[..|p| - 5] + ".part";
    }
  }

  /** The staged originals a commit publishes: claimed by a staged record and fully written. */
  predicate Publishable(st: Staging, p: Path) {
    p in st.originals && p in ExpectedOriginals(st) && !IsPartial(p)
  }

  function ReferencedOriginals(st: Staging): map<Path, Bytes> {
    map p | p in st.originals && Publishable(st, p) :: st.originals[p]
  }

  /** `staged` keeps the original that its committed record already owns. */
  predicate KeepsOriginal(env: Env, base: Tree, staged: Record) {
    && ManagedAt(base.records, env.nameOf(staged.id))
    && base.records[env.nameOf(staged.id)].managedPath == staged.managedPath
    && FileExists(base.originals, staged.managedPath)
  }

  // ----- the four phases that change the checkout -----

  function TombstonedOriginals(base: Tree, tombstones: set<FileName>): set<Path> {
    set f | f in tombstones && ManagedAt(base.records, f) :: base.records[f].managedPath
  }

  function ApplyTombstones(base: Tree, tombstones: set<FileName>): Tree {
    Tree(base.records - tombstones, base.originals - TombstonedOriginals(base, tombstones))
  }

  /** The digest the claimed originals must have, by path. */
  ghost function ExpectedDigests(st: Staging): map<Path, Digest> {
    map p | p in ExpectedOriginals(st) :: var f :| Claims(st, f, p); st.records[f].fingerprint.digest
  }

  predicate OwnsOriginal(env: Env, base: Tree, st: Staging, f: FileName, p: Path) {
    && Claims(st, f, p)
    && env.nameOf(st.records[f].id) in base.records
    && base.records[env.nameOf(st.records[f].id)].managedPath == p
  }

  function PreviousOriginals(env: Env, base: Tree, st: Staging): set<Path> {
    set f | f in st.records && OwnsOriginal(env, base, st, f, st.records[f].managedPath) :: st.records[f].managedPath
  }

  /** The digest the bytes being replaced must have: that of the committed record at that path. */
  ghost function PreviousDigests(env: Env, base: Tree, st: Staging): map<Path, Digest> {
    map p | p in PreviousOriginals(env, base, st) ::
      var f :| OwnsOriginal(env, base, st, f, p); base.records[env.nameOf(st.records[f].id)].fingerprint.digest
  }

  /** The staged bytes are the expected ones, and the target is free of files, directories and bytes of others. */
  predicate MayPublish(env: Env, files: map<Path, Bytes>, st: Staging,
                       expected: map<Path, Digest>, previous: map<Path, Digest>, p: Path)
  {
    MayReplace(env, files, st, expected, previous, p) && FileFits(files, p)
  }

  predicate MayReplace(env: Env, files: map<Path, Bytes>, st: Staging,
                       expected: map<Path, Digest>, previous: map<Path, Digest>, p: Path)
  {
    && p in expected && expected[p] != "" && FileMatches(env, st.originals, p, expected[p])
    && (p in files ==> FileMatches(env, files, p, expected[p]) || (p in previous && FileMatches(env, files, p, previous[p])))
  }

  /** A target that already holds the expected content is left alone; any other is replaced. */
  function Chosen(env: Env, files: map<Path, Bytes>, st: Staging, expected: map<Path, Digest>, p: Path): Bytes
    requires p in st.originals
  {
    if p in expected && FileMatches(env, files, p, expected[p]) then files[p] else st.originals[p]
  }

  function PublishSome(env: Env, files: map<Path, Bytes>, st: Staging, expected: map<Path, Digest>, some: set<Path>): map<Path, Bytes>
    requires some <= st.originals.Keys
  {
    files + ChosenFor(env, files, st, expected, some)
  }

  function ChosenFor(env: Env, files: map<Path, Bytes>, st: Staging, expected: map<Path, Digest>, some: set<Path>): map<Path, Bytes>
    requires some <= st.originals.Keys
  {
    map p | p in some :: Chosen(env, files, st, expected, p)
  }

  function PublishOriginals(env: Env, base: Tree, st: Staging, expected: map<Path, Digest>): Tree {
    var some := set p | p in st.originals && Publishable(st, p);
    base.(originals := PublishSome(env, base.originals, st, expected, some))
  }

  /** Staged record `f` gives its committed record a different path. */
  predicate Repaths(env: Env, records: map<FileName, Record>, st: Staging, f: FileName)
    requires f in st.records
  {
    var name := env.nameOf(st.records[f].id);
    ManagedAt(st.records, f) && ManagedAt(records, name) && records[name].managedPath != st.records[f].managedPath
  }

  function ReplacedOriginals(env: Env, records: map<FileName, Record>, st: Staging): set<Path> {
    set f | f in st.records && Repaths(env, records, st, f) :: records[env.nameOf(st.records[f].id)].managedPath
  }

  function DropReplaced(env: Env, base: Tree, st: Staging): Tree {
    base.(originals := base.originals - ReplacedOriginals(env, base.records, st))
  }

  function CopyRecords(base: Tree, st: Staging): Tree {
    base.(records := base.records + st.records)
  }

  ghost function Applied(env: Env, base: Tree, st: Staging): Tree {
    var buried := ApplyTombstones(base, st.tombstones);
    CopyRecords(DropReplaced(env, PublishOriginals(env, buried, st, ExpectedDigests(st)), st), st)
  }

  // ----- validation -----

  predicate HasOriginal(env: Env, base: Tree, st: Staging, f: FileName)
    requires f in st.records
  {
    var r := st.records[f];
    r.storage == Managed ==> FileExists(st.originals, r.managedPath) || KeepsOriginal(env, base, r)
  }

  /** A staged managed record has its original: staged, kept, or edited in place to match. */
  predicate RecordValid(env: Env, base: Tree, st: Staging, f: FileName)
    requires f in st.records
  {
    var r := st.records[f];
    && HasOriginal(env, base, st, f)
    && (InPlaceEdit(env, base, st, f) ==> FileMatches(env, base.originals, r.managedPath, r.fingerprint.digest))
  }

  /** Staged without its original over a committed record whose fingerprint is another. */
  predicate InPlaceEdit(env: Env, base: Tree, st: Staging, f: FileName)
    requires f in st.records
  {
    var r := st.records[f];
    && r.storage == Managed && KeepsOriginal(env, base, r) && !FileExists(st.originals, r.managedPath)
    && base.records[env.nameOf(r.id)].fingerprint != r.fingerprint
  }

  /** What a commit demands of its staging area. */
  ghost predicate Accepts(env: Env, base: Tree, st: Staging) {
    && (st.records.Keys != {} || st.tombstones != {})
    && (forall f | f in st.records :: RecordValid(env, base, st, f))
    && forall p | p in st.originals && Publishable(st, p) ::
         MayPublish(env, ApplyTombstones(base, st.tombstones).originals, st,
                    ExpectedDigests(st), PreviousDigests(env, base, st), p)
  }

  /** A phase of the commit changed, or declared changed, some original. */
  ghost predicate TouchesOriginals(env: Env, base: Tree, st: Staging) {
    || st.originals != map[]
    || (exists f | f in st.records :: InPlaceEdit(env, base, st, f))
    || (exists t | t in st.tombstones :: ManagedAt(base.records, t))
    || exists f | f in st.records :: Repaths(env, base.records - st.tombstones, st, f)
  }

  /** What a revision holds: originals are taken from the checkout only if a phase touched them. */
  ghost function Published(env: Env, index: Tree, base: Tree, st: Staging): Tree {
    if TouchesOriginals(env, base, st) then Applied(env, base, st) else Applied(env, base, st).(originals := index.originals)
  }

  // ----- well-formed staging -----

  ghost predicate Named(env: Env, records: map<FileName, Record>) {
    forall f | ManagedAt(records, f) :: env.nameOf(records[f].id) == f
  }

  predicate UsablePath(p: Path) {
    "originals/" <= p && !IsPartial(p)
  }

  ghost predicate UsablePaths(records: map<FileName, Record>) {
    forall f | ManagedAt(records, f) :: UsablePath(records[f].managedPath)
  }

  /** Each managed path belongs to one record file, across both maps. */
  ghost predicate OneOwner(a: map<FileName, Record>, b: map<FileName, Record>) {
    forall f, g | ManagedAt(a, f) && ManagedAt(b, g) && a[f].managedPath == b[g].managedPath :: f == g
  }

  /** Records stand in their own files, under usable paths that no two of them share. */
  ghost predicate WellFormed(env: Env, base: Tree, st: Staging) {
    && Named(env, base.records) && Named(env, st.records)
    && UsablePaths(base.records) && UsablePaths(st.records)
    && OneOwner(st.records, st.records)
    && OneOwner(base.records, st.records)
    && OneOwner(base.records, base.records)
  }

  /** Nothing that a commit removes or replaces is a directory then. */
  ghost predicate Removable(env: Env, base: Tree, st: Staging) {
    && (forall p | p in TombstonedOriginals(base, st.tombstones) :: NoDirectory(base.originals.Keys, p))
    && forall p | p in ReplacedOriginals(env, base.records - st.tombstones, st) ::
         NoDirectory(base.originals.Keys + st.originals.Keys, p)
  }

  ghost predicate NoDirectory(files: set<Path>, p: Path) {
    p != "" && forall q | q in files :: !Beneath(p, q)
  }

  /** What a commit can finish, unless it finds something to object to. */
  ghost predicate Workable(env: Env, base: Tree, st: Staging) {
    WellFormed(env, base, st) && NotNested(st.originals.Keys) && Removable(env, base, st)
  }

  /**
   * A managed record staged without its original, over its own tombstone or where only a directory
   * of other staged originals is.
   */
  predicate LosesOriginal(st: Staging, f: FileName) {
    && ManagedAt(st.records, f) && st.records[f].managedPath !in st.originals
    && (f in st.tombstones || IsDirectory(st.originals, st.records[f].managedPath))
  }

  /** Every managed record's original is present and hashes to the record's fingerprint. */
  ghost predicate Matched(env: Env, tree: Tree) {
    forall f | ManagedAt(tree.records, f) ::
      FileMatches(env, tree.originals, tree.records[f].managedPath, tree.records[f].fingerprint.digest)
  }

  /**
   * The checkout a commit starts from: the committed tree, except for originals that were
   * edited in place and whose records are staged with their new fingerprint.
   */
  ghost predicate EditsDeclared(env: Env, committed: Tree, base: Tree, st: Staging) {
    && base.records == committed.records
    && forall p | p in committed.originals.Keys + base.originals.Keys ::
         || (p in committed.originals && p in base.originals && committed.originals[p] == base.originals[p])
         || exists f | f in st.records :: InPlaceEdit(env, base, st, f) && st.records[f].managedPath == p
  }

  /**
   * No original was overwritten that somebody else had changed: where the new tree holds other bytes
   * than the old one, after the removals, those of the old one were what the committed record at that
   * path said.
   */
  ghost predicate NothingForeignReplaced(env: Env, base: Tree, gone: set<FileName>, tree: Tree) {
    forall p | p in base.originals && p in tree.originals && base.originals[p] != tree.originals[p] ::
      || (exists t :: t in gone && t in base.records && base.records[t].managedPath == p)
      || (exists f :: f in base.records && base.records[f].managedPath == p && env.hash(base.originals[p]) == base.records[f].fingerprint.digest)
  }

  /** What is left of a staging area whose deletion was interrupted. */
  predicate PartOf(part: Staging, st: Staging) {
    && part.tombstones <= st.tombstones
    && (forall f | f in part.records :: f in st.records && part.records[f] == st.records[f])
    && (forall p | p in part.originals :: p in st.originals && part.originals[p] == st.originals[p])
  }
}
