/**
 * The layout of a backup archive: a header, then one entry per file. Encoding and parsing are
 * inverse to each other, so an archive says exactly one thing and nothing can be cut off or added.
 */
module ArchiveFormat {
  import opened BigEndian
  import opened Media

  /** File names are sequences of UTF-16 code units. */
  type Unit = u: int | 0 <= u < 65536
  type Name = seq<Unit>

  const MAGIC: nat := 0x50494d42
  const VERSION: nat := 1
  const MAXIMUM_ENTRIES: nat := 1000000
  /** The largest file size a signed 64-bit number can hold. */
  const MAXIMUM_SIZE: nat := 0x7fff_ffff_ffff_ffff
  /** Lengths from here on cannot be written: the last 32-bit value stands for a missing string. */
  const LENGTH_LIMIT: nat := 0xffff_ffff

  datatype Entry = Entry(name: Name, content: Bytes)

  // ----- names and byte strings -----

  function UnitBytes(name: Name): (b: Bytes)
    ensures |b| == 2 * |name|
  {
    if name == [] then [] else [name[0] / 256, name[0] % 256] + UnitBytes(name[1..])
  }

  function FromUnitBytes(b: Bytes): (name: Name)
    requires |b| % 2 == 0
    ensures |b| == 2 * |name|
  {
    if b == [] then []
    else
      var high: int, low: int := b[0], b[1];
      [high * 256 + low] + FromUnitBytes(b[2..])
  }

  lemma {:induction false} UnitsInverse(name: Name)
    ensures FromUnitBytes(UnitBytes(name)) == name
  {
    if name != [] {
      UnitsInverse(name[1..]);
      assert UnitBytes(name)[2..] == UnitBytes(name[1..]);
    }
  }

  lemma TwoDigits(high: int, low: int)
    requires 0 <= high < 256 && 0 <= low < 256
    ensures (high * 256 + low) / 256 == high && (high * 256 + low) % 256 == low
  {
  }

  lemma {:induction false} BytesInverse(b: Bytes)
    requires |b| % 2 == 0
    ensures UnitBytes(FromUnitBytes(b)) == b
  {
    if b != [] {
      var high: int, low: int := b[0], b[1];
      BytesInverse(b[2..]);
      TwoDigits(high, low);
      var name := [high * 256 + low] + FromUnitBytes(b[2..]);
      assert name[1..] == FromUnitBytes(b[2..]);
      assert b == [b[0], b[1]] + b[2..];
    }
  }

  function EncodeName(name: Name): Bytes
    requires 2 * |name| < LENGTH_LIMIT
  {
    U32(2 * |name|) + UnitBytes(name)
  }

  /** A length of all ones stands for a missing string, which reads as an empty one; an odd length is corrupt. */
  function ParseName(d: Bytes): Parsed<Name> {
    var length := ParseU32(d);
    if length.Nothing? then Nothing
    else if length.value == TWO32 - 1 then Parsed([], length.rest)
    else if length.value % 2 != 0 || length.value > |length.rest| then Nothing
    else Parsed(FromUnitBytes(length.rest[..length.value]), length.rest[length.value..])
  }

  function EncodeBytes(b: Bytes): Bytes
    requires |b| < LENGTH_LIMIT
  {
    U32(|b|) + b
  }

  function ParseBytes(d: Bytes): Parsed<Bytes> {
    var length := ParseU32(d);
    if length.Nothing? then Nothing
    else if length.value == TWO32 - 1 then Parsed([], length.rest)
    else if length.value > |length.rest| then Nothing
    else Parsed(length.rest[..length.value], length.rest[length.value..])
  }

  lemma NameParses(name: Name, rest: Bytes)
    requires 2 * |name| < LENGTH_LIMIT
    ensures ParseName(EncodeName(name) + rest) == Parsed(name, rest)
  {
    hide U32, FromU32, UnitBytes, FromUnitBytes, ParseU32;
    assert EncodeName(name) + rest == U32(2 * |name|) + (UnitBytes(name) + rest);
    U32Parses(2 * |name|, UnitBytes(name) + rest);
    UnitsInverse(name);
    assert (UnitBytes(name) + rest)[..2 * |name|] == UnitBytes(name);
  }

  lemma NameIsCanonical(d: Bytes)
    requires ParseName(d).Parsed? && ParseName(d).value != []
    ensures 2 * |ParseName(d).value| < LENGTH_LIMIT && d == EncodeName(ParseName(d).value) + ParseName(d).rest
  {
    U32IsCanonical(d);
    var length := ParseU32(d);
    BytesInverse(length.rest[..length.value]);
  }

  lemma BytesParse(b: Bytes, rest: Bytes)
    requires |b| < LENGTH_LIMIT
    ensures ParseBytes(EncodeBytes(b) + rest) == Parsed(b, rest)
  {
    assert EncodeBytes(b) + rest == U32(|b|) + (b + rest);
    U32Parses(|b|, b + rest);
    assert (b + rest)[..|b|] == b;
  }

  lemma BytesAreCanonical(d: Bytes)
    requires ParseBytes(d).Parsed? && 0 < |ParseBytes(d).value| < LENGTH_LIMIT
    ensures d == EncodeBytes(ParseBytes(d).value) + ParseBytes(d).rest
  {
    U32IsCanonical(d);
  }

  // ----- paths -----

  const SLASH: Unit := 47
  const DOT: Unit := 46
  const STORE: Name := [115, 116, 111, 114, 101]

  /** The parts between the slashes; there is always at least one. */
  function Components(name: Name): (parts: seq<Name>)
    ensures |parts| >= 1
  {
    if name == [] then [[]]
    else
      var rest := Components(name[1..]);
      if name[0] == SLASH then [[]] + rest else [[name[0]] + rest[0]] + rest[1..]
  }

  /** Relative, clean, and inside the store directory. */
  predicate IsSafe(name: Name) {
    var parts := Components(name);
    |parts| >= 2 && parts[0] == STORE && forall i | 0 <= i < |parts| :: parts[i] != [] && parts[i] != [DOT] && parts[i] != [DOT, DOT]
  }

  predicate FirstOf(name: Name, part: Name, rest: Name) {
    name == part + rest && SLASH !in part && (rest == [] || rest[0] == SLASH)
  }

  /** What stands before the first slash, or the whole name without one. */
  ghost predicate IsFirstPart(name: Name, part: Name) {
    exists rest: Name :: FirstOf(name, part, rest)
  }

  predicate LaterOf(name: Name, before: Name, part: Name, rest: Name) {
    && name == before + part + rest && SLASH !in part
    && before != [] && before[|before| - 1] == SLASH && (rest == [] || rest[0] == SLASH)
  }

  /** What stands between two slashes, or behind the last one. */
  ghost predicate IsLaterPart(name: Name, part: Name) {
    exists before: Name, rest: Name :: LaterOf(name, before, part, rest)
  }

  lemma {:induction false} FirstPartIs(name: Name, part: Name)
    ensures IsFirstPart(name, part) <==> part == Components(name)[0]
  {
    if name == [] || name[0] == SLASH {
      assert FirstOf(name, [], name);
      if rest: Name :| FirstOf(name, part, rest) {
        assert part == name[..|part|];
      }
    } else {
      if rest: Name :| FirstOf(name, part, rest) {
        assert part == name[..|part|];
        assert part[0] == name[0];
        assert name[1..] == part[1..] + rest;
        assert FirstOf(name[1..], part[1..], rest);
        FirstPartIs(name[1..], part[1..]);
        assert part == [name[0]] + part[1..];
      }
      FirstPartIs(name[1..], Components(name[1..])[0]);
      var rest: Name :| FirstOf(name[1..], Components(name[1..])[0], rest);
      assert FirstOf(name, Components(name)[0], rest);
    }
  }

  lemma {:induction false} LaterPartsAre(name: Name, part: Name)
    ensures IsLaterPart(name, part) <==> part in Components(name)[1..]
  {
    if name != [] {
      var tail := name[1..];
      LaterPartsAre(tail, part);
      FirstPartIs(tail, part);
      LaterPartFurther(name, part);
      var parts := Components(tail);
      assert parts == [parts[0]] + parts[1..];
      assert Components(name)[1..] == if name[0] == SLASH then parts else parts[1..];
    }
  }

  /** A later part of a name is one of its tail, or the first one of that if a slash was before it. */
  lemma LaterPartFurther(name: Name, part: Name)
    requires name != []
    ensures IsLaterPart(name, part) <==> IsLaterPart(name[1..], part) || (name[0] == SLASH && IsFirstPart(name[1..], part))
  {
    hide IsLaterPart, IsFirstPart;
    if IsLaterPart(name, part) { LaterPartOfTail(name, part); }
    if IsLaterPart(name[1..], part) { LaterPartOfWhole(name, part); }
    if name[0] == SLASH && IsFirstPart(name[1..], part) { FirstPartOfTail(name, part); }
  }

  lemma LaterPartOfTail(name: Name, part: Name)
    requires name != [] && IsLaterPart(name, part)
    ensures IsLaterPart(name[1..], part) || (name[0] == SLASH && IsFirstPart(name[1..], part))
  {
    var before: Name, rest: Name :| LaterOf(name, before, part, rest);
    if |before| == 1 {
      assert FirstOf(name[1..], part, rest);
    } else {
      assert before[1..][|before| - 2] == SLASH;
      assert name[1..] == before[1..] + part + rest;
      assert LaterOf(name[1..], before[1..], part, rest);
    }
  }

  lemma LaterPartOfWhole(name: Name, part: Name)
    requires name != [] && IsLaterPart(name[1..], part)
    ensures IsLaterPart(name, part)
  {
    var before: Name, rest: Name :| LaterOf(name[1..], before, part, rest);
    var more := [name[0]] + before;
    assert name == more + part + rest && more[|more| - 1] == SLASH;
    assert LaterOf(name, more, part, rest);
  }

  lemma FirstPartOfTail(name: Name, part: Name)
    requires name != [] && name[0] == SLASH && IsFirstPart(name[1..], part)
    ensures IsLaterPart(name, part)
  {
    var rest: Name :| FirstOf(name[1..], part, rest);
    var before: Name := [SLASH];
    assert name == before + part + rest;
    assert LaterOf(name, before, part, rest);
  }

  /** A name is safe exactly if it begins with the store directory and no part of it is empty, "." or "..". */
  lemma SafeExactlyWhen(name: Name)
    ensures IsSafe(name) <==>
      && |name| > 5 && name[..6] == [115, 116, 111, 114, 101, 47]
      && forall part: Name | IsLaterPart(name, part) :: part != [] && part != [46] && part != [46, 46]
  {
    hide Components, IsFirstPart, IsLaterPart;
    var parts := Components(name);
    FirstPartIs(name, STORE);
    forall part: Name ensures IsLaterPart(name, part) <==> part in parts[1..] {
      LaterPartsAre(name, part);
    }
    StoreIsFirst(name);
    forall i | 1 <= i < |parts| ensures parts[i] in parts[1..] {
      assert parts[i] == parts[1..][i - 1];
    }
    assert STORE != [] && STORE != [DOT] && STORE != [DOT, DOT] by { assert |STORE| == 5; }
  }

  lemma StoreIsFirst(name: Name)
    ensures |name| > 5 && name[..6] == [115, 116, 111, 114, 101, 47] <==> IsFirstPart(name, STORE) && |Components(name)| >= 2
  {
    hide Components;
    FirstPartIs(name, name);
    if |name| > 5 && name[..6] == [115, 116, 111, 114, 101, 47] {
      assert name[..5] == name[..6][..5] == STORE && name[5] == name[..6][5];
      assert FirstOf(name, STORE, name[5..]);
      assert SLASH in name;
      SlashesSeparate(name);
    }
    if IsFirstPart(name, STORE) && |Components(name)| >= 2 {
      SlashesSeparate(name);
      var rest: Name :| FirstOf(name, STORE, rest);
      assert rest == [] ==> name == STORE;
    }
  }

  lemma {:induction false} SlashesSeparate(name: Name)
    ensures |Components(name)| >= 2 <==> SLASH in name
  {
    if name != [] {
      SlashesSeparate(name[1..]);
      assert SLASH in name <==> name[0] == SLASH || SLASH in name[1..];
    }
  }

  /** A safe name is not empty, not absolute, and no step of it leaves the directory it is in. */
  lemma SafeStaysInside(name: Name)
    requires IsSafe(name)
    ensures name != [] && name[0] != SLASH
    ensures |name| > 6 && name[..6] == STORE + [SLASH]
    ensures [DOT, DOT] !in Components(name)
  {
    hide Components;
    var parts := Components(name);
    PartsAreClean(parts);
    FirstComponent(name);
    InsideOf(name, parts[0]);
  }

  lemma PartsAreClean(parts: seq<Name>)
    requires forall i | 0 <= i < |parts| :: parts[i] != [DOT, DOT]
    ensures [DOT, DOT] !in parts
  {
  }

  /** A name that begins with the store directory and a slash. */
  lemma InsideOf(name: Name, first: Name)
    requires first == STORE && |name| > |first| && name[..|first|] == first && name[|first|] == SLASH
    ensures name[0] != SLASH && name[..6] == STORE + [SLASH]
  {
    assert name[0] == name[..5][0] == 115;
    assert name[..6] == name[..5] + [name[5]];
  }

  lemma {:induction false} FirstComponent(name: Name)
    ensures |Components(name)| == 1 ==> Components(name)[0] == name
    ensures |Components(name)| >= 2 ==> var first := Components(name)[0];
      |name| > |first| && name[..|first|] == first && name[|first|] == SLASH
    ensures |Components(name)| >= 2 && Components(name)[1] != [] ==> |name| > |Components(name)[0]| + 1
  {
    if name != [] {
      FirstComponent(name[1..]);
      if name[0] != SLASH && |Components(name)| >= 2 {
        var inner := Components(name[1..])[0];
        assert name[..|inner| + 1] == [name[0]] + name[1..][..|inner|];
      }
    }
  }

  /** A name with one more step. */
  function Below(name: Name, step: Unit): Name {
    name + [SLASH, step]
  }

  lemma {:induction false} ComponentsBelow(name: Name, step: Unit)
    requires step != SLASH
    ensures Components(Below(name, step)) == Components(name) + [[step]]
  {
    if name == [] {
      assert Below(name, step)[1..] == [step] && [step][1..] == [];
      OneComponent([step]);
    } else {
      assert Below(name, step)[1..] == Below(name[1..], step);
      ComponentsBelow(name[1..], step);
    }
  }

  /** One step below a safe name is safe. */
  lemma BelowIsSafe(name: Name, step: Unit)
    requires IsSafe(name) && step != SLASH && step != DOT
    ensures IsSafe(Below(name, step))
  {
    ComponentsBelow(name, step);
  }

  lemma {:induction false} OneComponent(name: Name)
    requires SLASH !in name
    ensures Components(name) == [name]
  {
    if name != [] {
      OneComponent(name[1..]);
      assert name == [name[0]] + name[1..];
    }
  }

  /** Any one letter in the store directory is a safe name. */
  lemma InStoreIsSafe(step: Unit)
    requires step != SLASH && step != DOT
    ensures IsSafe(Below(STORE, step))
  {
    OneComponent(STORE);
    ComponentsBelow(STORE, step);
  }

  // ----- entries -----

  /** What the reader accepts as an entry, besides not having seen its name before. */
  predicate Acceptable(e: Entry) {
    IsSafe(e.name) && 2 * |e.name| < LENGTH_LIMIT && |e.content| <= MAXIMUM_SIZE
  }

  function EncodeEntry(e: Entry, hash: Bytes -> Bytes): Bytes
    requires Acceptable(e) && |hash(e.content)| == 32
  {
    EncodeName(e.name) + U64(|e.content|) + EncodeBytes(hash(e.content)) + e.content
  }

  function ParseEntry(d: Bytes, hash: Bytes -> Bytes): Parsed<Entry> {
    var name := ParseName(d);
    if name.Nothing? then Nothing
    else
      var size := ParseU64(name.rest);
      if size.Nothing? then Nothing
      else
        var expected := ParseBytes(size.rest);
        if expected.Nothing? || !IsSafe(name.value) || |expected.value| != 32 || size.value > MAXIMUM_SIZE then Nothing
        else if size.value > |expected.rest| then Nothing
        else
          var content := expected.rest[..size.value];
          if hash(content) != expected.value then Nothing
          else Parsed(Entry(name.value, content), expected.rest[size.value..])
  }

  lemma EntryParses(e: Entry, hash: Bytes -> Bytes, rest: Bytes)
    requires Acceptable(e) && |hash(e.content)| == 32
    ensures ParseEntry(EncodeEntry(e, hash) + rest, hash) == Parsed(e, rest)
  {
    hide IsSafe, ParseName, EncodeName, ParseU64, U64, ParseBytes, EncodeBytes;
    var size, digest := U64(|e.content|), EncodeBytes(hash(e.content));
    var afterDigest := e.content + rest;
    var afterSize := digest + afterDigest;
    var afterName := size + afterSize;
    assert EncodeEntry(e, hash) + rest == EncodeName(e.name) + afterName;
    NameParses(e.name, afterName);
    U64Parses(|e.content|, afterSize);
    BytesParse(hash(e.content), afterDigest);
    assert afterDigest[..|e.content|] == e.content;
  }

  lemma EntryIsCanonical(d: Bytes, hash: Bytes -> Bytes)
    requires ParseEntry(d, hash).Parsed?
    ensures var e := ParseEntry(d, hash).value;
      Acceptable(e) && |hash(e.content)| == 32 && d == EncodeEntry(e, hash) + ParseEntry(d, hash).rest
  {
    hide ParseName, EncodeName, ParseU64, U64, ParseBytes, EncodeBytes;
    var name := ParseName(d);
    var size := ParseU64(name.rest);
    var expected := ParseBytes(size.rest);
    NotEmpty(name.value);
    NameIsCanonical(d);
    U64IsCanonical(name.rest);
    BytesAreCanonical(size.rest);
    var e, rest := ParseEntry(d, hash).value, ParseEntry(d, hash).rest;
    assert expected.rest == e.content + rest;
    assert d == EncodeName(e.name) + (U64(|e.content|) + (EncodeBytes(hash(e.content)) + (e.content + rest)));
  }

  lemma NotEmpty(name: Name)
    requires IsSafe(name)
    ensures name != []
  {
  }

  // ----- archives -----

  ghost predicate DistinctNames(entries: seq<Entry>) {
    forall i, j | 0 <= i < j < |entries| :: entries[i].name != entries[j].name
  }

  /** The file `a` would have to be a directory for `b` to exist. */
  predicate Beneath(a: Name, b: Name) {
    |a| < |b| && b[..|a|] == a && b[|a|] == SLASH
  }

  lemma BeneathExactlyWhen(a: Name, b: Name)
    ensures Beneath(a, b) <==> exists rest: Name :: b == a + [47] + rest
  {
    if Beneath(a, b) {
      assert b == a + [47] + b[|a| + 1..];
    }
  }

  /** No entry would need another one to be a directory. */
  ghost predicate NotNested(entries: seq<Entry>) {
    forall i, j | 0 <= i < |entries| && 0 <= j < |entries| :: !Beneath(entries[i].name, entries[j].name)
  }

  /** What an archive can hold. */
  ghost predicate Archivable(entries: seq<Entry>, hash: Bytes -> Bytes) {
    && |entries| <= MAXIMUM_ENTRIES && DistinctNames(entries)
    && forall i | 0 <= i < |entries| :: Acceptable(entries[i]) && |hash(entries[i].content)| == 32
  }

  function EncodeEntries(entries: seq<Entry>, hash: Bytes -> Bytes): Bytes
    requires forall i | 0 <= i < |entries| :: Acceptable(entries[i]) && |hash(entries[i].content)| == 32
  {
    if entries == [] then [] else EncodeEntry(entries[0], hash) + EncodeEntries(entries[1..], hash)
  }

  function Encode(entries: seq<Entry>, hash: Bytes -> Bytes): Bytes
    requires Archivable(entries, hash)
  {
    U32(MAGIC) + U32(VERSION) + U32(|entries|) + EncodeEntries(entries, hash)
  }

  /** `n` more entries, none with a name that was seen. */
  function ParseEntries(d: Bytes, n: nat, seen: set<Name>, hash: Bytes -> Bytes): Parsed<seq<Entry>> {
    if n == 0 then Parsed([], d)
    else
      var first := ParseEntry(d, hash);
      if first.Nothing? || first.value.name in seen then Nothing
      else
        var others := ParseEntries(first.rest, n - 1, seen + {first.value.name}, hash);
        if others.Nothing? then Nothing else Parsed([first.value] + others.value, others.rest)
  }

  function Parse(d: Bytes, hash: Bytes -> Bytes): Option<seq<Entry>> {
    if |d| < 12 || FromU32(d[..4]) != MAGIC || FromU32(d[4..8]) != VERSION || FromU32(d[8..12]) > MAXIMUM_ENTRIES then None
    else
      var entries := ParseEntries(d[12..], FromU32(d[8..12]), {}, hash);
      if entries.Nothing? || entries.rest != [] then None else Some(entries.value)
  }

  lemma {:induction false} EntriesParse(entries: seq<Entry>, seen: set<Name>, hash: Bytes -> Bytes, rest: Bytes)
    requires forall i | 0 <= i < |entries| :: Acceptable(entries[i]) && |hash(entries[i].content)| == 32
    requires DistinctNames(entries) && forall i | 0 <= i < |entries| :: entries[i].name !in seen
    ensures ParseEntries(EncodeEntries(entries, hash) + rest, |entries|, seen, hash) == Parsed(entries, rest)
  {
    hide ParseEntry, EncodeEntry, Acceptable;
    if entries == [] {
      assert EncodeEntries(entries, hash) + rest == rest;
    } else {
      var later := EncodeEntries(entries[1..], hash) + rest;
      assert EncodeEntries(entries, hash) + rest == EncodeEntry(entries[0], hash) + later;
      EntryParses(entries[0], hash, later);
      EntriesParse(entries[1..], seen + {entries[0].name}, hash, rest);
      assert entries == [entries[0]] + entries[1..];
    }
  }

  lemma {:induction false} EntriesAreCanonical(d: Bytes, n: nat, seen: set<Name>, hash: Bytes -> Bytes)
    requires ParseEntries(d, n, seen, hash).Parsed?
    ensures var entries := ParseEntries(d, n, seen, hash).value;
      && |entries| == n && DistinctNames(entries)
      && (forall i | 0 <= i < n :: Acceptable(entries[i]) && |hash(entries[i].content)| == 32 && entries[i].name !in seen)
      && d == EncodeEntries(entries, hash) + ParseEntries(d, n, seen, hash).rest
    decreases n
  {
    hide ParseEntry, EncodeEntry, Acceptable;
    if n > 0 {
      var first := ParseEntry(d, hash);
      EntryIsCanonical(d, hash);
      EntriesAreCanonical(first.rest, n - 1, seen + {first.value.name}, hash);
      var others := ParseEntries(first.rest, n - 1, seen + {first.value.name}, hash);
      var entries := [first.value] + others.value;
      assert entries[1..] == others.value;
    }
  }

  /** Reading what was written gives back exactly the entries. */
  lemma RoundTrip(entries: seq<Entry>, hash: Bytes -> Bytes)
    requires Archivable(entries, hash)
    ensures Parse(Encode(entries, hash), hash) == Some(entries)
  {
    var d, tail := Encode(entries, hash), EncodeEntries(entries, hash);
    U32Inverse(MAGIC, []);
    U32Inverse(VERSION, []);
    U32Inverse(|entries|, []);
    assert d[..4] == U32(MAGIC) && d[4..8] == U32(VERSION) && d[8..12] == U32(|entries|) && d[12..] == tail;
    EntriesParse(entries, {}, hash, []);
    assert tail + [] == tail;
  }

  /** Every accepted archive is the encoding of what it is read as. */
  lemma Canonicity(d: Bytes, hash: Bytes -> Bytes)
    requires Parse(d, hash).Some?
    ensures Archivable(Parse(d, hash).value, hash) && d == Encode(Parse(d, hash).value, hash)
  {
    hide ParseEntries, EncodeEntries, Acceptable, U32, FromU32;
    U32Inverse(0, d[..4]);
    U32Inverse(0, d[4..8]);
    U32Inverse(0, d[8..12]);
    EntriesAreCanonical(d[12..], FromU32(d[8..12]), {}, hash);
    var entries, tail := Parse(d, hash).value, d[12..];
    assert tail == EncodeEntries(entries, hash) + [] == EncodeEntries(entries, hash);
    assert d == d[..4] + d[4..8] + d[8..12] + tail;
  }

  lemma ParsingIgnoresWhatFollows(d: Bytes, more: Bytes, n: nat, seen: set<Name>, hash: Bytes -> Bytes)
    requires ParseEntries(d, n, seen, hash).Parsed?
    ensures ParseEntries(d + more, n, seen, hash) ==
      Parsed(ParseEntries(d, n, seen, hash).value, ParseEntries(d, n, seen, hash).rest + more)
  {
    hide ParseEntries, EncodeEntries, Acceptable;
    EntriesAreCanonical(d, n, seen, hash);
    var entries, rest := ParseEntries(d, n, seen, hash).value, ParseEntries(d, n, seen, hash).rest;
    EntriesParse(entries, seen, hash, rest + more);
    assert d + more == EncodeEntries(entries, hash) + (rest + more);
  }

  /** Of two different byte strings where one continues the other, at most one is an archive. */
  lemma NothingCutOffOrAdded(d: Bytes, more: Bytes, hash: Bytes -> Bytes)
    requires more != [] && Parse(d, hash).Some?
    ensures Parse(d + more, hash) == None
  {
    var whole := d + more;
    assert whole[..4] == d[..4] && whole[4..8] == d[4..8] && whole[8..12] == d[8..12] && whole[12..] == d[12..] + more;
    ParsingIgnoresWhatFollows(d[12..], more, FromU32(d[8..12]), {}, hash);
  }
}
