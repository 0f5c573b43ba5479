/** Writing a library into a backup archive and extracting it again, in bounded chunks. */
module BackupArchive {
  import opened Media
  import opened ArchiveFormat
  import opened BigEndian

  const CHUNK: nat := 0x10_0000

  /** A file as the two passes over it find it: first it is hashed and measured, then it is copied. */
  datatype Source = Source(name: Name, hashed: Bytes, streamed: Bytes)

  function MinOf(a: nat, b: nat): nat { if a < b then a else b }

  // ----- writing -----

  function EntriesOf(files: seq<Source>): seq<Entry> {
    seq(|files|, i requires 0 <= i < |files| => Entry(files[i].name, files[i].hashed))
  }

  /** The listing of a store directory: distinct safe names, none below another, and sizes that a file can have. */
  ghost predicate IsListing(files: seq<Source>) {
    && (forall i, j | 0 <= i < j < |files| :: files[i].name != files[j].name)
    && NotNested(EntriesOf(files))
    && (forall i | 0 <= i < |files| :: IsSafe(files[i].name) && |files[i].hashed| <= MAXIMUM_SIZE)
  }

  /** The hash tells the two contents of a file apart if they differ. */
  ghost predicate TellsApart(hash: Bytes -> Bytes, file: Source) {
    hash(file.hashed) == hash(file.streamed) ==> file.hashed == file.streamed
  }

  predicate NamesFit(files: seq<Source>) {
    forall i | 0 <= i < |files| :: 2 * |files[i].name| < LENGTH_LIMIT
  }

  /** The first `n` operations succeed. */
  ghost predicate AllWork(works: nat -> bool, n: nat) {
    forall i: nat | i < n :: works(i)
  }

  predicate Settled(files: seq<Source>) {
    forall i | 0 <= i < |files| :: files[i].hashed == files[i].streamed
  }

  /** Feeds the content to a digest, one buffer at a time. */
  method Digest(content: Bytes, hash: Bytes -> Bytes) returns (digest: Bytes)
    ensures digest == hash(content)
  {
    var fed: Bytes, at := [], 0;
    while at < |content|
      invariant at <= |content| && fed == content[..at]
    {
      var count := MinOf(CHUNK, |content| - at);
      fed := fed + content[at..at + count];
      at := at + count;
    }
    assert content[..|content|] == content;
    digest := hash(fed);
  }

  /** Copies the content behind `before`, one buffer at a time, and digests what was copied. */
  method Copy(before: Bytes, content: Bytes, hash: Bytes -> Bytes, space: nat) returns (after: Bytes, digest: Bytes, ok: bool)
    ensures ok ==> after == before + content && digest == hash(content)
    ensures ok <==> content == [] || |before| + |content| <= space
  {
    var at := 0;
    var fed: Bytes := [];
    after, digest, ok := before, [], false;
    while at < |content|
      invariant at <= |content| && fed == content[..at] && after == before + content[..at]
      invariant at == 0 || |after| <= space
    {
      var count := MinOf(CHUNK, |content| - at);
      if |after| + count > space {
        return;
      }
      assert content[..at + count] == content[..at] + content[at..at + count];
      after, fed := after + content[at..at + count], fed + content[at..at + count];
      at := at + count;
    }
    assert content[..|content|] == content;
    digest, ok := hash(fed), true;
  }

  lemma EncodeOneMore(entries: seq<Entry>, i: nat, hash: Bytes -> Bytes)
    requires forall k | 0 <= k < |entries| :: Acceptable(entries[k]) && |hash(entries[k].content)| == 32
    requires i < |entries|
    ensures EncodeEntries(entries[..i + 1], hash) == EncodeEntries(entries[..i], hash) + EncodeEntry(entries[i], hash)
  {
    EncodeAppended(entries[..i], entries[i], hash);
    assert entries[..i + 1] == entries[..i] + [entries[i]];
  }

  lemma {:induction false} EncodeAppended(entries: seq<Entry>, e: Entry, hash: Bytes -> Bytes)
    requires forall k | 0 <= k < |entries| :: Acceptable(entries[k]) && |hash(entries[k].content)| == 32
    requires Acceptable(e) && |hash(e.content)| == 32
    ensures EncodeEntries(entries + [e], hash) == EncodeEntries(entries, hash) + EncodeEntry(e, hash)
  {
    hide Acceptable, EncodeEntry;
    if entries == [] {
      assert ([e])[1..] == [];
    } else {
      EncodeAppended(entries[1..], e, hash);
      assert (entries + [e])[1..] == entries[1..] + [e];
    }
  }

  lemma {:induction false} PrefixIsShorter(entries: seq<Entry>, i: nat, hash: Bytes -> Bytes)
    requires forall k | 0 <= k < |entries| :: Acceptable(entries[k]) && |hash(entries[k].content)| == 32
    requires i <= |entries|
    ensures |EncodeEntries(entries[..i], hash)| <= |EncodeEntries(entries, hash)|
    decreases |entries| - i
  {
    if i == |entries| {
      assert entries[..i] == entries;
    } else {
      EncodeOneMore(entries, i, hash);
      PrefixIsShorter(entries, i + 1, hash);
    }
  }

  lemma ListingIsAcceptable(files: seq<Source>, i: nat, hash: Bytes -> Bytes)
    requires IsListing(files) && (forall b :: |hash(b)| == 32) && i <= |files| && NamesFit(files[..i])
    ensures forall k | 0 <= k < i :: Acceptable(EntriesOf(files)[..i][k]) && |hash(EntriesOf(files)[..i][k].content)| == 32
    ensures i == |files| && |files| <= MAXIMUM_ENTRIES ==> Archivable(EntriesOf(files), hash) && EntriesOf(files)[..i] == EntriesOf(files)
  {
    forall k | 0 <= k < i ensures Acceptable(EntriesOf(files)[k]) {
      assert files[..i][k] == files[k];
    }
  }

  function Header(count: nat): Bytes
    requires count <= MAXIMUM_ENTRIES
  {
    U32(MAGIC) + U32(VERSION) + U32(count)
  }

  /** What is written before the content of a file. */
  function Preamble(file: Source, digest: Bytes): Bytes
    requires 2 * |file.name| < LENGTH_LIMIT && |file.hashed| <= MAXIMUM_SIZE && |digest| == 32
  {
    EncodeName(file.name) + U64(|file.hashed|) + EncodeBytes(digest)
  }

  /** Everything after the first `i` files: the part of the archive that they make up, if their names could be written. */
  ghost predicate Written(out: Bytes, files: seq<Source>, i: nat, hash: Bytes -> Bytes)
    requires IsListing(files) && (forall b :: |hash(b)| == 32) && i <= |files| <= MAXIMUM_ENTRIES
  {
    NamesFit(files[..i]) ==>
      (ListingIsAcceptable(files, i, hash);
       out == Header(|files|) + EncodeEntries(EntriesOf(files)[..i], hash))
  }

  lemma WrittenOneMore(out: Bytes, files: seq<Source>, i: nat, hash: Bytes -> Bytes)
    requires IsListing(files) && (forall b :: |hash(b)| == 32) && i < |files| <= MAXIMUM_ENTRIES
    requires Written(out, files, i, hash) && 2 * |files[i].name| < LENGTH_LIMIT && files[i].hashed == files[i].streamed
    ensures Written(out + Preamble(files[i], hash(files[i].hashed)) + files[i].streamed, files, i + 1, hash)
  {
    hide IsSafe, EncodeName, U64, EncodeBytes, U32, EncodeEntries, Header;
    if NamesFit(files[..i + 1]) {
      assert forall k | 0 <= k < i :: files[..i][k] == files[..i + 1][k];
      ListingIsAcceptable(files, i, hash);
      ListingIsAcceptable(files, i + 1, hash);
      var entries := EntriesOf(files)[..i + 1];
      assert entries[..i] == EntriesOf(files)[..i] && entries[..i + 1] == entries;
      EncodeOneMore(entries, i, hash);
      Regroup(Header(|files|), EncodeEntries(entries[..i], hash), Preamble(files[i], hash(files[i].hashed)), files[i].streamed);
    }
  }

  lemma Regroup(a: Bytes, b: Bytes, c: Bytes, d: Bytes)
    ensures a + b + c + d == a + (b + (c + d))
  {
  }

  /** If the room does not suffice for a part of the archive, it does not suffice for the archive. */
  lemma TooLongAlready(out: Bytes, files: seq<Source>, i: nat, hash: Bytes -> Bytes)
    requires IsListing(files) && (forall b :: |hash(b)| == 32) && i <= |files| <= MAXIMUM_ENTRIES
    requires Written(out, files, i, hash) && NamesFit(files)
    ensures Archivable(EntriesOf(files), hash) && |out| <= |Encode(EntriesOf(files), hash)|
    ensures i == |files| ==> out == Encode(EntriesOf(files), hash)
  {
    assert files[..|files|] == files;
    ListingIsAcceptable(files, |files|, hash);
    PrefixIsShorter(EntriesOf(files), i, hash);
  }

  /**
   * Writes the archive of a listing. It comes into being only if every file was the same in both
   * passes; then it is the encoding of the files. `readable` says which files can be opened.
   */
  method WriteArchive(files: seq<Source>, hash: Bytes -> Bytes, readable: nat -> bool, space: nat) returns (archive: Option<Bytes>)
    requires IsListing(files) && (forall b :: |hash(b)| == 32)
    requires forall i | 0 <= i < |files| :: TellsApart(hash, files[i])
    ensures archive.Some? ==> Settled(files) && Archivable(EntriesOf(files), hash) && archive.value == Encode(EntriesOf(files), hash)
    ensures archive.None? <==>
      !(Settled(files) && NamesFit(files) && |files| <= MAXIMUM_ENTRIES && AllWork(readable, |files|) && |Encode(EntriesOf(files), hash)| <= space)
  {
    hide Written, Preamble, Header, EncodeEntries, Encode, IsSafe, Acceptable;
    if |files| > MAXIMUM_ENTRIES {
      return None;
    }
    var out, good := Header(|files|), true;
    NothingWritten(files, hash);
    for i := 0 to |files|
      invariant forall k | 0 <= k < i :: files[k].hashed == files[k].streamed
      invariant good ==> forall k | 0 <= k < i :: 2 * |files[k].name| < LENGTH_LIMIT
      invariant !good ==> !NamesFit(files)
      invariant good ==> Written(out, files, i, hash)
      invariant AllWork(readable, i)
    {
      if !readable(i) {
        return None;
      }
      var digest := Digest(files[i].hashed, hash);
      ghost var before := out;
      if 2 * |files[i].name| >= LENGTH_LIMIT {
        good := false;
      } else {
        out := out + Preamble(files[i], digest);
      }
      ghost var filled := out;
      var streamed, ok := digest, false;
      out, streamed, ok := Copy(out, files[i].streamed, hash, space);
      if good && files[i].hashed == files[i].streamed {
        WrittenOneMore(before, files, i, hash);
        if NamesFit(files) {
          TooLongAlready(filled + files[i].streamed, files, i + 1, hash);
        }
      }
      if !ok || streamed != digest {
        return None;
      }
      assert TellsApart(hash, files[i]);
    }
    if NamesFit(files) {
      TooLongAlready(out, files, |files|, hash);
    }
    if good && |out| <= space {
      archive := Some(out);
    } else {
      archive := None;
    }
  }

  lemma NothingWritten(files: seq<Source>, hash: Bytes -> Bytes)
    requires IsListing(files) && (forall b :: |hash(b)| == 32) && |files| <= MAXIMUM_ENTRIES
    ensures Written(Header(|files|), files, 0, hash)
  {
    assert EntriesOf(files)[..0] == [];
    assert Header(|files|) + [] == Header(|files|);
  }

  // ----- extracting -----

  function FilesOf(entries: seq<Entry>): map<Name, Bytes> {
    if entries == [] then map[]
    else FilesOf(entries[..|entries| - 1])[entries[|entries| - 1].name := entries[|entries| - 1].content]
  }

  /** The files of entries with different names: each name once, with its content. */
  lemma {:induction false} FilesAreTheEntries(entries: seq<Entry>)
    requires DistinctNames(entries)
    ensures forall i | 0 <= i < |entries| :: entries[i].name in FilesOf(entries) && FilesOf(entries)[entries[i].name] == entries[i].content
    ensures FilesOf(entries).Keys == set e | e in entries :: e.name
  {
    if entries != [] {
      var rest, last := entries[..|entries| - 1], entries[|entries| - 1];
      FilesAreTheEntries(rest);
      assert forall i | 0 <= i < |rest| :: entries[i] == rest[i];
      assert forall e :: e in entries <==> e in rest || e == last;
    }
  }

  /** Copies `size` bytes of the stream into a file, one buffer at a time. */
  method ReadContent(stream: Bytes, size: nat, hash: Bytes -> Bytes) returns (content: Bytes, digest: Bytes, ok: bool)
    ensures ok <==> size <= |stream|
    ensures ok ==> content == stream[..size] && digest == hash(content)
  {
    var remaining, at := size, 0;
    content, digest, ok := [], [], false;
    while remaining > 0
      invariant 0 <= remaining && at + remaining == size && at <= |stream| && content == stream[..at]
    {
      var requested := MinOf(remaining, CHUNK);
      if at + requested > |stream| {
        return;
      }
      content := content + stream[at..at + requested];
      at, remaining := at + requested, remaining - requested;
    }
    digest, ok := hash(content), true;
  }

  /** Reads and checks one entry whose name was not seen before. */
  method ReadEntry(stream: Bytes, seen: set<Name>, hash: Bytes -> Bytes) returns (entry: Parsed<Entry>)
    ensures entry == var e := ParseEntry(stream, hash); if e.Nothing? || e.value.name in seen then Nothing else e
  {
    hide ParseName, ParseU64, ParseBytes, IsSafe;
    var name := ParseName(stream);
    if name.Nothing? {
      return Nothing;
    }
    var size := ParseU64(name.rest);
    if size.Nothing? {
      return Nothing;
    }
    var expected := ParseBytes(size.rest);
    if expected.Nothing? || !IsSafe(name.value) || name.value in seen || |expected.value| != 32 || size.value > MAXIMUM_SIZE {
      return Nothing;
    }
    var content, digest, ok := ReadContent(expected.rest, size.value, hash);
    if !ok || digest != expected.value {
      return Nothing;
    }
    entry := Parsed(Entry(name.value, content), expected.rest[size.value..]);
  }

  function Before(done: seq<Entry>, later: Parsed<seq<Entry>>): Parsed<seq<Entry>> {
    if later.Nothing? then Nothing else Parsed(done + later.value, later.rest)
  }

  lemma OneEntryFurther(done: seq<Entry>, stream: Bytes, n: nat, seen: set<Name>, hash: Bytes -> Bytes)
    requires n > 0
    ensures var e := ParseEntry(stream, hash);
      Before(done, ParseEntries(stream, n, seen, hash)) ==
        if e.Nothing? || e.value.name in seen then Nothing
        else Before(done + [e.value], ParseEntries(e.rest, n - 1, seen + {e.value.name}, hash))
  {
    var e := ParseEntry(stream, hash);
    if e.Parsed? && e.value.name !in seen {
      var later := ParseEntries(e.rest, n - 1, seen + {e.value.name}, hash);
      if later.Parsed? {
        assert done + ([e.value] + later.value) == done + [e.value] + later.value;
      }
    }
  }

  lemma OneFileMore(done: seq<Entry>, e: Entry)
    ensures FilesOf(done + [e]) == FilesOf(done)[e.name := e.content]
  {
    assert (done + [e])[..|done|] == done;
  }

  /** A file of this name needs a written file to be a directory, or the other way round. */
  predicate Clashes(files: map<Name, Bytes>, name: Name) {
    exists other | other in files :: Beneath(other, name) || Beneath(name, other)
  }

  lemma ClashIsNested(done: seq<Entry>, e: Entry)
    requires DistinctNames(done) && NotNested(done)
    ensures NotNested(done + [e]) <==> !Clashes(FilesOf(done), e.name)
  {
    FilesAreTheEntries(done);
    var more := done + [e];
    if Clashes(FilesOf(done), e.name) {
      var other :| other in FilesOf(done) && (Beneath(other, e.name) || Beneath(e.name, other));
      var i :| 0 <= i < |done| && done[i].name == other;
      assert more[i].name == other && more[|done|].name == e.name;
    } else {
      forall i, j | 0 <= i < |more| && 0 <= j < |more|
        ensures !Beneath(more[i].name, more[j].name)
      {
        if i < |done| { assert more[i].name in FilesOf(done); }
        if j < |done| { assert more[j].name in FilesOf(done); }
      }
    }
  }

  /** What holds of the entries read so far, if the archive can be parsed and its files can coexist. */
  lemma PrefixOfNested(done: seq<Entry>, e: Entry, later: Parsed<seq<Entry>>)
    requires later.Parsed?
    ensures NotNested(done + [e] + later.value) ==> NotNested(done + [e])
  {
    var whole := done + [e] + later.value;
    assert forall i | 0 <= i < |done + [e]| :: whole[i] == (done + [e])[i];
  }

  /** The archive is read as these entries, their files can coexist, and each of them can be written. */
  ghost predicate Extractable(data: Bytes, hash: Bytes -> Bytes, writable: nat -> bool) {
    && Parse(data, hash).Some?
    && NotNested(Parse(data, hash).value)
    && AllWork(writable, |Parse(data, hash).value|)
  }

  /**
   * Extracts exactly the archives that can be parsed and whose files can coexist, unless one of
   * them cannot be written, into exactly their files; whatever happens, every file it writes lies
   * inside the store directory. `writable` says which of the files the disk takes.
   */
  method ExtractArchive(data: Bytes, hash: Bytes -> Bytes, writable: nat -> bool) returns (ok: bool, files: map<Name, Bytes>)
    ensures ok <==> Extractable(data, hash, writable)
    ensures ok ==> files == FilesOf(Parse(data, hash).value)
    ensures forall name | name in files :: IsSafe(name)
  {
    hide ParseEntry, ParseEntries, IsSafe, FilesOf, NotNested, DistinctNames, Clashes, FromU32;
    files := map[];
    if |data| < 12 {
      return false, files;
    }
    var magic, version, count := FromU32(data[..4]), FromU32(data[4..8]), FromU32(data[8..12]);
    if magic != MAGIC || version != VERSION || count > MAXIMUM_ENTRIES {
      return false, files;
    }
    var stream, seen: set<Name> := data[12..], {};
    ghost var done: seq<Entry> := [];
    NoFilesYet(data[12..], count, hash);
    for index := 0 to count
      invariant ParseEntries(data[12..], count, {}, hash) == Before(done, ParseEntries(stream, count - index, seen, hash))
      invariant files == FilesOf(done) && |done| == index && Read(done, seen) && NotNested(done) && AllWork(writable, index)
      invariant forall name | name in files :: IsSafe(name)
    {
      OneEntryFurther(done, stream, count - index, seen, hash);
      var entry := ReadEntry(stream, seen, hash);
      if entry.Nothing? {
        return false, files;
      }
      EntryIsSafe(stream, hash);
      OneFileMore(done, entry.value);
      ReadOneMore(done, seen, entry.value);
      ClashIsNested(done, entry.value);
      LaterEntries(done, entry.value, entry.rest, count - index - 1, seen + {entry.value.name}, hash);
      if Clashes(files, entry.value.name) || !writable(index) {
        return false, files;
      }
      seen := seen + {entry.value.name};
      done := done + [entry.value];
      files := files[entry.value.name := entry.value.content];
      stream := entry.rest;
    }
    NothingMore(done, stream, seen, hash);
    ok := stream == [];
  }

  /** The entries read so far have different names, those that were seen. */
  ghost predicate Read(done: seq<Entry>, seen: set<Name>) {
    DistinctNames(done) && forall i | 0 <= i < |done| :: done[i].name in seen
  }

  lemma ReadOneMore(done: seq<Entry>, seen: set<Name>, e: Entry)
    requires Read(done, seen) && e.name !in seen
    ensures DistinctNames(done) && Read(done + [e], seen + {e.name})
  {
  }

  /** When one entry more was read, the files of the whole archive coexist only if those so far do. */
  lemma LaterEntries(done: seq<Entry>, e: Entry, stream: Bytes, n: nat, seen: set<Name>, hash: Bytes -> Bytes)
    ensures var all := Before(done + [e], ParseEntries(stream, n, seen, hash));
      all.Parsed? ==> |all.value| >= |done| + 1 && (NotNested(all.value) ==> NotNested(done + [e]))
  {
    hide ParseEntries, NotNested;
    var later := ParseEntries(stream, n, seen, hash);
    if later.Parsed? { PrefixOfNested(done, e, later); }
  }

  lemma NoFilesYet(stream: Bytes, n: nat, hash: Bytes -> Bytes)
    ensures ParseEntries(stream, n, {}, hash) == Before([], ParseEntries(stream, n, {}, hash))
    ensures FilesOf([]) == map[] && Read([], {}) && NotNested([])
  {
    var p := ParseEntries(stream, n, {}, hash);
    if p.Parsed? { assert [] + p.value == p.value; }
  }

  lemma NothingMore(done: seq<Entry>, stream: Bytes, seen: set<Name>, hash: Bytes -> Bytes)
    ensures Before(done, ParseEntries(stream, 0, seen, hash)) == Parsed(done, stream)
  {
    assert done + [] == done;
  }

  lemma EntryIsSafe(stream: Bytes, hash: Bytes -> Bytes)
    ensures ParseEntry(stream, hash).Parsed? ==> IsSafe(ParseEntry(stream, hash).value.name)
  {
  }

  /** Backing a library up and restoring the backup gives back exactly its files. */
  method BackupAndRestore(files: seq<Source>, hash: Bytes -> Bytes, readable: nat -> bool, space: nat, writable: nat -> bool)
    returns (restored: Option<map<Name, Bytes>>)
    requires IsListing(files) && (forall b :: |hash(b)| == 32)
    requires forall i | 0 <= i < |files| :: TellsApart(hash, files[i])
    ensures restored.Some? ==> restored.value == FilesOf(EntriesOf(files))
    ensures restored.None? <==>
      !(Settled(files) && NamesFit(files) && |files| <= MAXIMUM_ENTRIES && AllWork(readable, |files|)
        && |Encode(EntriesOf(files), hash)| <= space && AllWork(writable, |files|))
  {
    hide TellsApart, Settled, NamesFit, Archivable, Encode, Parse, FilesOf, AllWork, NotNested, IsSafe;
    var archive := WriteArchive(files, hash, readable, space);
    if archive.None? {
      return None;
    }
    RoundTrip(EntriesOf(files), hash);
    var ok, extracted := ExtractArchive(archive.value, hash, writable);
    restored := if ok then Some(extracted) else None;
  }

  /** An archive of a name and one below it can be read, but not extracted: the first would have to be a directory. */
  method NestedNamesAreRefused(hash: Bytes -> Bytes) returns (ok: bool, files: map<Name, Bytes>)
    requires |hash([])| == 32
    ensures !ok
  {
    hide Encode, Parse, IsSafe, FilesOf;
    ghost var outer, inner := Below(STORE, 97), Below(Below(STORE, 97), 98);
    InStoreIsSafe(97);
    BelowIsSafe(outer, 98);
    var entries := [Entry(Below(STORE, 97), []), Entry(Below(Below(STORE, 97), 98), [])];
    assert Beneath(entries[0].name, entries[1].name);
    RoundTrip(entries, hash);
    ok, files := ExtractArchive(Encode(entries, hash), hash, _ => true);
  }
}
