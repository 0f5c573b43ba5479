/** Reading an EXIF block that was written gives back what went into it. */
module ExifRoundTrip {
  import opened BigEndian
  import opened ExifBuilder
  import opened Media
  import opened Placement
  import opened TiffReader

  // ----- one entry -----

  lemma StandingL16(tiff: Bytes, at: nat, n: nat)
    requires n < 0x10000 && Stands(tiff, at, L16(n))
    ensures ReadU16(tiff, at, false) == Some(n)
  {
    L16IsRead(tiff, at, n);
  }

  lemma StandingL32(tiff: Bytes, at: nat, n: nat)
    requires n < TWO32 && Stands(tiff, at, L32(n))
    ensures ReadU32(tiff, at, false) == Some(n)
  {
    L32IsRead(tiff, at, n);
  }

  /** A written entry is read with the value it was given. */
  lemma EntryReadsBack(tiff: Bytes, at: nat, e: Entry, place: nat)
    requires IsEntry(e) && place < TWO32 && Stands(tiff, at, EntryBytes(e, place))
    requires e.externalValue != [] ==> Stands(tiff, place, e.externalValue)
    ensures ReadEntry(tiff, at, false) == Read(Resolved(e))
  {
    hide L16, L32, ReadU16, ReadU32;
    var last := if e.externalValue == [] then e.inlineValue else L32(place);
    EntryParts(tiff, at, e, place, last);
    StandingL16(tiff, at, e.tag);
    StandingL16(tiff, at + 2, e.kind);
    StandingL32(tiff, at + 4, e.count);
    if e.externalValue == [] {
      var size := SizeOfType(e.kind) * e.count;
      SomeWord(tiff, at + 8);
      assert tiff[at + 8..at + 12][..size] == tiff[at + 8..at + 8 + size];
    } else {
      StandingL32(tiff, at + 8, place);
    }
  }

  lemma SomeWord(tiff: Bytes, at: nat)
    requires at + 4 <= |tiff|
    ensures ReadU32(tiff, at, false).Some?
  {
  }

  lemma EntryParts(tiff: Bytes, at: nat, e: Entry, place: nat, last: Bytes)
    requires IsEntry(e) && place < TWO32 && Stands(tiff, at, EntryBytes(e, place))
    requires last == if e.externalValue == [] then e.inlineValue else L32(place)
    ensures Stands(tiff, at, L16(e.tag)) && Stands(tiff, at + 2, L16(e.kind)) && Stands(tiff, at + 4, L32(e.count)) && Stands(tiff, at + 8, last)
  {
    hide L16, L32;
    assert EntryBytes(e, place) == L16(e.tag) + L16(e.kind) + (L32(e.count) + last);
    StandsInside(tiff, at, L16(e.tag), L16(e.kind), L32(e.count) + last);
    assert L32(e.count) + last == [] + L32(e.count) + last;
    StandsInside(tiff, at + 4, [], L32(e.count), last);
  }

  // ----- directories -----

  function ResolvedAll(entries: seq<Entry>): (resolved: seq<TiffEntry>)
    requires forall i | 0 <= i < |entries| :: IsEntry(entries[i])
    ensures |resolved| == |entries|
  {
    seq(|entries|, i requires 0 <= i < |entries| => Resolved(entries[i]))
  }

  lemma {:induction false} EntryStands(entries: seq<Entry>, base: nat, data: Bytes, i: nat)
    requires (forall k | 0 <= k < |entries| :: IsEntry(entries[k])) && base + |DataAfter(data, entries)| < TWO32 && i < |entries|
    ensures base + |DataAfter(data, entries[..i])| < TWO32
    ensures EntriesBytes(entries, base, data)[12 * i..12 * i + 12] == EntryBytes(entries[i], base + |DataAfter(data, entries[..i])|)
  {
    hide EntryBytes, IsEntry, DataAfter;
    DataGrows(data, entries, i);
    var n := |entries| - 1;
    DataGrows(data, entries, n);
    if i < n {
      var rest := entries[..n];
      EntryStands(rest, base, data, i);
      assert rest[..i] == entries[..i];
      var whole, part := EntriesBytes(entries, base, data), EntriesBytes(rest, base, data);
      assert whole[..12 * n] == part;
      assert whole[12 * i..12 * i + 12] == whole[..12 * n][12 * i..12 * i + 12];
    }
  }

  /** The values of these entries stand where the directory says. */
  ghost predicate ValuesStand(tiff: Bytes, entries: seq<Entry>, base: nat, data: Bytes) {
    forall i | 0 <= i < |entries| && entries[i].externalValue != [] ::
      Stands(tiff, base + |DataAfter(data, entries[..i])|, entries[i].externalValue)
  }

  lemma {:induction false} EntriesReadBack(tiff: Bytes, at: nat, entries: seq<Entry>, base: nat, data: Bytes, i: nat)
    requires (forall k | 0 <= k < |entries| :: IsEntry(entries[k])) && base + |DataAfter(data, entries)| < TWO32 && i <= |entries|
    requires Stands(tiff, at, EntriesBytes(entries, base, data)) && ValuesStand(tiff, entries, base, data)
    ensures ReadEntries(tiff, at + 12 * i, |entries| - i, false) == Directory(true, ResolvedAll(entries)[i..])
    decreases |entries| - i
  {
    hide ReadEntry, EntryBytes, IsEntry, Resolved, Stands, DataAfter, EntriesBytes;
    if i < |entries| {
      var from, place := 12 * i, base + |DataAfter(data, entries[..i])|;
      EntryStands(entries, base, data, i);
      StandingPart(tiff, at, EntriesBytes(entries, base, data), from, 12);
      StandsThere(tiff, at + from, EntryBytes(entries[i], place));
      EntryReadsBack(tiff, at + from, entries[i], place);
      EntriesReadBack(tiff, at, entries, base, data, i + 1);
      assert ResolvedAll(entries)[i..] == [Resolved(entries[i])] + ResolvedAll(entries)[i + 1..];
    }
  }

  lemma StandsThere(tiff: Bytes, at: nat, part: Bytes)
    requires at + |part| <= |tiff| && tiff[at..at + |part|] == part
    ensures Stands(tiff, at, part)
  {
  }

  /** A written directory is read entry by entry. */
  lemma DirectoryReadsBack(tiff: Bytes, at: nat, entries: seq<Entry>, base: nat, data: Bytes)
    requires (forall k | 0 <= k < |entries| :: IsEntry(entries[k])) && base + |DataAfter(data, entries)| < TWO32 && |entries| <= MAXIMUM_IFD_ENTRIES
    requires Stands(tiff, at, IfdBytes(entries, base, data)) && ValuesStand(tiff, entries, base, data)
    ensures Ifd(tiff, at, false) == Directory(true, ResolvedAll(entries))
  {
    hide L16, L32, ReadU16, ReadEntries, EntriesBytes, ValuesStand, IsEntry, Stands, DataAfter;
    StandsInside(tiff, at, L16(|entries|), EntriesBytes(entries, base, data), L32(0));
    StandingL16(tiff, at, |entries|);
    EntriesReadBack(tiff, at + 2, entries, base, data, 0);
    assert ResolvedAll(entries)[0..] == ResolvedAll(entries);
  }

  // ----- the data area of a block -----

  /** If the data area stands in the block, so does every value kept in it. */
  lemma AreaHoldsValues(tiff: Bytes, entries: seq<Entry>, base: nat, data: Bytes, area: Bytes)
    requires Stands(tiff, base, area) && |DataAfter(data, entries)| <= |area| && area[..|DataAfter(data, entries)|] == DataAfter(data, entries)
    ensures ValuesStand(tiff, entries, base, data)
  {
    hide DataAfter;
    forall i | 0 <= i < |entries| && entries[i].externalValue != []
      ensures Stands(tiff, base + |DataAfter(data, entries[..i])|, entries[i].externalValue)
    {
      ValueStands(data, entries, i);
      DataGrows(data, entries, i + 1);
      var at, n := |DataAfter(data, entries[..i])|, |entries[i].externalValue|;
      PartOfPart(area, 0, |DataAfter(data, entries)|, at, n);
      StandingPart(tiff, base, area, at, n);
    }
  }

  // ----- values -----

  /** Text that survives: no NUL in it, and no blanks around it. */
  predicate IsText(text: Bytes) {
    (forall i | 0 <= i < |text| :: text[i] != 0) && (text != [] ==> !IsSpace(text[0]) && !IsSpace(text[|text| - 1]))
  }

  lemma {:induction false} UpToNulIs(text: Bytes)
    requires forall i | 0 <= i < |text| :: text[i] != 0
    ensures UpToNul(text + [0]) == text
  {
    if text != [] {
      UpToNulIs(text[1..]);
      assert (text + [0])[1..] == text[1..] + [0];
    }
  }

  lemma TextReadsBack(tag: nat, text: Bytes)
    requires IsText(text)
    ensures AsciiValue(TiffEntry(tag, ASCII, |text| + 1, text + [0])) == text
  {
    UpToNulIs(text);
  }

  lemma CoordinateReadsBack(tag: nat, value: real)
    requires Abs(value) <= 180.0
    ensures CoordinateFrom(TiffEntry(tag, RATIONAL, 3, CoordinateValue(AngleOf(value))), false) == Some(AngleValue(AngleOf(value)))
  {
    hide L32, ReadU32;
    var a := AngleOf(value);
    var b := CoordinateValue(a);
    assert b[0..4] == L32(a.degrees) && b[4..8] == L32(1) && b[8..12] == L32(a.minutes);
    assert b[12..16] == L32(1) && b[16..20] == L32(a.milliseconds) && b[20..24] == L32(1000);
    L32IsRead(b, 0, a.degrees);
    L32IsRead(b, 4, 1);
    L32IsRead(b, 8, a.minutes);
    L32IsRead(b, 12, 1);
    L32IsRead(b, 16, a.milliseconds);
    L32IsRead(b, 20, 1000);
  }

  // ----- looking entries up -----

  lemma {:induction false} FindInBoth(a: seq<TiffEntry>, b: seq<TiffEntry>, tag: nat)
    ensures Find(a + b, tag) == if Find(a, tag).Some? then Find(a, tag) else Find(b, tag)
  {
    if a == [] {
      assert a + b == b;
    } else {
      FindInBoth(a[1..], b, tag);
      assert (a + b)[1..] == a[1..] + b;
    }
  }

  lemma ResolvedBoth(a: seq<Entry>, b: seq<Entry>)
    requires (forall i | 0 <= i < |a| :: IsEntry(a[i])) && (forall i | 0 <= i < |b| :: IsEntry(b[i]))
    ensures (forall i | 0 <= i < |a + b| :: IsEntry((a + b)[i])) && ResolvedAll(a + b) == ResolvedAll(a) + ResolvedAll(b)
  {
    hide IsEntry, Resolved;
  }

  lemma FindText(tag: nat, text: Bytes, wanted: nat)
    requires tag < 0x10000 && |text| < 0xffff
    ensures Find(ResolvedAll(TextEntries(tag, text)), wanted) ==
      if text != [] && wanted == tag then Some(TiffEntry(tag, ASCII, |text| + 1, text + [0])) else None
  {
    var found := ResolvedAll(TextEntries(tag, text));
    if text != [] {
      assert found[0] == Resolved(AsciiEntry(tag, text)) && found[1..] == [];
    }
  }

  lemma FindNumber(e: Entry, wanted: nat)
    requires IsEntry(e)
    ensures Find(ResolvedAll([e]), wanted) == if wanted == e.tag then Some(Resolved(e)) else None
  {
    assert ResolvedAll([e])[0] == Resolved(e) && ResolvedAll([e])[1..] == [];
  }

  /** What each tag of the primary directory leads to. */
  lemma FindInPrimary(s: ExifSpec, tag: nat)
    requires IsSpec(s)
    ensures ExifOffset(s) < TWO32 && GpsOffset(s) < TWO32
    ensures Find(ResolvedAll(PrimaryEntries(s)), tag) ==
      if tag == 0x010f && s.make != [] then Some(TiffEntry(tag, ASCII, |s.make| + 1, s.make + [0]))
      else if tag == 0x0110 && s.model != [] then Some(TiffEntry(tag, ASCII, |s.model| + 1, s.model + [0]))
      else if tag == 0x0112 then Some(TiffEntry(tag, SHORT, 1, L16(s.orientation)))
      else if tag == 0x8769 && ExifEntries(s) != [] then Some(TiffEntry(tag, LONG, 1, L32(ExifOffset(s))))
      else if tag == 0x8825 && s.gps.Some? then Some(TiffEntry(tag, LONG, 1, L32(GpsOffset(s))))
      else None
  {
    hide IsEntry, AsciiEntry, ShortEntry, LongEntry, L16, L32, Find, ResolvedAll, ExifEntries, TextEntries;
    var make, model, orientation := TextEntries(0x010f, s.make), TextEntries(0x0110, s.model), [ShortEntry(0x0112, s.orientation)];
    var exif := if ExifEntries(s) != [] then [LongEntry(0x8769, ExifOffset(s))] else [];
    var gps := if s.gps.Some? then [LongEntry(0x8825, GpsOffset(s))] else [];
    ResolvedBoth(make, model);
    ResolvedBoth(make + model, orientation);
    ResolvedBoth(make + model + orientation, exif);
    ResolvedBoth(make + model + orientation + exif, gps);
    FindInBoth(ResolvedAll(make), ResolvedAll(model), tag);
    FindInBoth(ResolvedAll(make + model), ResolvedAll(orientation), tag);
    FindInBoth(ResolvedAll(make + model + orientation), ResolvedAll(exif), tag);
    FindInBoth(ResolvedAll(make + model + orientation + exif), ResolvedAll(gps), tag);
    FindText(0x010f, s.make, tag);
    FindText(0x0110, s.model, tag);
    FindNumber(ShortEntry(0x0112, s.orientation), tag);
    FindNumber(LongEntry(0x8769, ExifOffset(s)), tag);
    FindNumber(LongEntry(0x8825, GpsOffset(s)), tag);
    FindNothing(tag);
  }

  lemma FindNothing(tag: nat)
    ensures Find([], tag) == None && ResolvedAll([]) == []
  {
  }

  lemma FindInExif(s: ExifSpec, tag: nat)
    requires IsSpec(s)
    ensures Find(ResolvedAll(ExifEntries(s)), tag) ==
      if tag == 0x9003 && s.dateTimeOriginal != [] then Some(TiffEntry(tag, ASCII, |s.dateTimeOriginal| + 1, s.dateTimeOriginal + [0]))
      else if tag == 0x9011 && s.offsetTimeOriginal != [] then Some(TiffEntry(tag, ASCII, |s.offsetTimeOriginal| + 1, s.offsetTimeOriginal + [0]))
      else None
  {
    hide IsEntry, AsciiEntry, Find, ResolvedAll, TextEntries;
    var date, offset := TextEntries(0x9003, s.dateTimeOriginal), TextEntries(0x9011, s.offsetTimeOriginal);
    ResolvedBoth(date, offset);
    FindInBoth(ResolvedAll(date), ResolvedAll(offset), tag);
    FindText(0x9003, s.dateTimeOriginal, tag);
    FindText(0x9011, s.offsetTimeOriginal, tag);
  }

  function CoordinateTiff(tag: nat, value: real): TiffEntry
    requires Abs(value) <= 180.0
  {
    TiffEntry(tag, RATIONAL, 3, CoordinateValue(AngleOf(value)))
  }

  lemma FindInGps(s: ExifSpec, tag: nat)
    requires IsSpec(s) && s.gps.Some?
    ensures var (latitude, longitude) := s.gps.value;
      Find(ResolvedAll(GpsEntries(s)), tag) ==
        if tag == 1 then Some(TiffEntry(1, ASCII, 2, (if latitude >= 0.0 then NORTH_TEXT else SOUTH_TEXT) + [0]))
        else if tag == 2 then Some(CoordinateTiff(2, latitude))
        else if tag == 3 then Some(TiffEntry(3, ASCII, 2, (if longitude >= 0.0 then EAST_TEXT else WEST_TEXT) + [0]))
        else if tag == 4 then Some(CoordinateTiff(4, longitude))
        else None
  {
    hide IsEntry, AsciiEntry, CoordinateEntry, Find, ResolvedAll, Resolved, CoordinateValue, AngleOf;
    var (latitude, longitude) := s.gps.value;
    var a, b := AsciiEntry(1, if latitude >= 0.0 then NORTH_TEXT else SOUTH_TEXT), CoordinateEntry(2, latitude);
    var c, d := AsciiEntry(3, if longitude >= 0.0 then EAST_TEXT else WEST_TEXT), CoordinateEntry(4, longitude);
    assert GpsEntries(s) == [a] + [b] + [c] + [d];
    ResolvedBoth([a], [b]);
    ResolvedBoth([a] + [b], [c]);
    ResolvedBoth([a] + [b] + [c], [d]);
    FindInBoth(ResolvedAll([a]), ResolvedAll([b]), tag);
    FindInBoth(ResolvedAll([a] + [b]), ResolvedAll([c]), tag);
    FindInBoth(ResolvedAll([a] + [b] + [c]), ResolvedAll([d]), tag);
    FindNumber(a, tag);
    FindNumber(b, tag);
    FindNumber(c, tag);
    FindNumber(d, tag);
    TagsOfEntries(latitude, longitude);
  }

  lemma TagsOfEntries(latitude: real, longitude: real)
    requires Abs(latitude) <= 180.0 && Abs(longitude) <= 180.0
    ensures AsciiEntry(1, NORTH_TEXT).tag == AsciiEntry(1, SOUTH_TEXT).tag == 1
    ensures AsciiEntry(3, EAST_TEXT).tag == AsciiEntry(3, WEST_TEXT).tag == 3
    ensures CoordinateEntry(2, latitude).tag == 2 && CoordinateEntry(4, longitude).tag == 4
  {
  }

  // ----- the whole block -----

  /** A coordinate as it comes back: rounded to a thousandth of a second. */
  function Stored(value: real): real {
    if value >= 0.0 then AngleValue(AngleOf(value)) else -AngleValue(AngleOf(value))
  }

  function TextField(text: Bytes): Option<Bytes> {
    if text == [] then None else Some(text)
  }

  /** What a reader should find in the block of this specification. */
  function Expected(s: ExifSpec, isDate: Bytes -> bool): ExifFields
    requires IsSpec(s)
  {
    ExifFields(TextField(s.make), TextField(s.model), None, Some(Rotation(s.orientation)), None, None,
               if IsTime(s.dateTimeOriginal, isDate)
               then Some(Capture(s.dateTimeOriginal, OffsetSeconds(s.offsetTimeOriginal))) else None,
               if s.gps.None? then None else Some(Location(Stored(s.gps.value.0), Stored(s.gps.value.1), None)),
               None, None, None)
  }

  ghost predicate HasTexts(s: ExifSpec) {
    IsText(s.make) && IsText(s.model) && IsText(s.dateTimeOriginal) && IsText(s.offsetTimeOriginal)
  }

  lemma BlockPlaces(s: ExifSpec)
    requires IsSpec(s)
    ensures DataOffset(s) + |DataArea(s)| < TWO32 && |DataAfterPrimary(s)| <= |DataAfterExif(s)| <= |DataArea(s)|
    ensures var tiff := TiffBlock(s);
      && Stands(tiff, 0, TIFF_HEADER) && Stands(tiff, 8, IfdBytes(PrimaryEntries(s), DataOffset(s), []))
      && (ExifEntries(s) != [] ==> Stands(tiff, ExifOffset(s), IfdBytes(ExifEntries(s), DataOffset(s), DataAfterPrimary(s))))
      && (s.gps.Some? ==> Stands(tiff, GpsOffset(s), IfdBytes(GpsEntries(s), DataOffset(s), DataAfterExif(s))))
      && Stands(tiff, DataOffset(s), DataArea(s)) && |tiff| == DataOffset(s) + |DataArea(s)|
  {
    hide IfdBytes, PrimaryEntries, ExifEntries, GpsEntries, IsEntry, Stands, DataAfter, IsSpec;
    OffsetsFit(s);
    var primary := IfdBytes(PrimaryEntries(s), DataOffset(s), []);
    var exif := if ExifEntries(s) != [] then IfdBytes(ExifEntries(s), DataOffset(s), DataAfterPrimary(s)) else [];
    var gps := if s.gps.Some? then IfdBytes(GpsEntries(s), DataOffset(s), DataAfterExif(s)) else [];
    var tiff := TiffBlock(s);
    assert tiff == TIFF_HEADER + primary + exif + gps + DataArea(s);
    FiveParts(TIFF_HEADER, primary, exif, gps, DataArea(s));
  }

  lemma FiveParts(a: Bytes, b: Bytes, c: Bytes, d: Bytes, e: Bytes)
    ensures var whole := a + b + c + d + e;
      && Stands(whole, 0, a) && Stands(whole, |a|, b) && Stands(whole, |a| + |b|, c)
      && Stands(whole, |a| + |b| + |c|, d) && Stands(whole, |a| + |b| + |c| + |d|, e)
  {
    var whole := a + b + c + d + e;
    assert whole == a + b + (c + d + e);
    assert whole[..|whole|] == whole;
    StandsInside(whole, 0, a, b, c + d + e);
    StandsInside(whole, |a| + |b|, c, d, e);
  }

  lemma HeaderReadsBack(tiff: Bytes)
    requires Stands(tiff, 0, TIFF_HEADER)
    ensures |tiff| >= 8 && tiff[..2] == [73, 73]
    ensures ReadU16(tiff, 2, false) == Some(42) && ReadU32(tiff, 4, false) == Some(8)
  {
    StandingPart(tiff, 0, TIFF_HEADER, 0, 2);
    StandingPart(tiff, 0, TIFF_HEADER, 2, 2);
    StandingPart(tiff, 0, TIFF_HEADER, 4, 4);
    L16IsRead(tiff, 2, 42);
    L32IsRead(tiff, 4, 8);
  }

  /** Each directory of the block is read as it was written. */
  lemma DirectoriesReadBack(s: ExifSpec)
    requires IsSpec(s)
    ensures Ifd(TiffBlock(s), 8, false) == Directory(true, ResolvedAll(PrimaryEntries(s)))
    ensures ExifEntries(s) != [] ==> Ifd(TiffBlock(s), ExifOffset(s), false) == Directory(true, ResolvedAll(ExifEntries(s)))
    ensures s.gps.Some? ==> Ifd(TiffBlock(s), GpsOffset(s), false) == Directory(true, ResolvedAll(GpsEntries(s)))
  {
    hide Ifd, IfdBytes, ResolvedAll, TiffBlock, IsEntry, PrimaryEntries, ExifEntries, GpsEntries, ValuesStand, DataAfter, Stands, DataOffset, ExifOffset, GpsOffset;
    BlockPlaces(s);
    var tiff, base, area := TiffBlock(s), DataOffset(s), DataArea(s);
    AreaParts(s);
    AreaHoldsValues(tiff, PrimaryEntries(s), base, [], area);
    DirectoryReadsBack(tiff, 8, PrimaryEntries(s), base, []);
    AreaHoldsValues(tiff, ExifEntries(s), base, DataAfterPrimary(s), area);
    if ExifEntries(s) != [] {
      DirectoryReadsBack(tiff, ExifOffset(s), ExifEntries(s), base, DataAfterPrimary(s));
    }
    AreaHoldsValues(tiff, GpsEntries(s), base, DataAfterExif(s), area);
    if s.gps.Some? {
      DirectoryReadsBack(tiff, GpsOffset(s), GpsEntries(s), base, DataAfterExif(s));
    }
  }

  lemma AreaParts(s: ExifSpec)
    requires IsSpec(s)
    ensures |DataAfterPrimary(s)| <= |DataArea(s)| && DataArea(s)[..|DataAfterPrimary(s)|] == DataAfterPrimary(s)
    ensures |DataAfterExif(s)| <= |DataArea(s)| && DataArea(s)[..|DataAfterExif(s)|] == DataAfterExif(s)
    ensures DataArea(s)[..|DataArea(s)|] == DataArea(s)
  {
    hide PrimaryEntries, ExifEntries, GpsEntries;
    var n, m := |DataAfterPrimary(s)|, |DataAfterExif(s)|;
    assert DataArea(s)[..m][..n] == DataArea(s)[..n];
  }

  lemma SubDirectoryReadsBack(tiff: Bytes, ifd0: seq<TiffEntry>, tag: nat, offset: nat)
    requires offset < TWO32 && Find(ifd0, tag) == Some(TiffEntry(tag, LONG, 1, L32(offset)))
    ensures SubDirectory(tiff, ifd0, tag, false) == Ifd(tiff, offset, false).entries
  {
    L32IsRead(L32(offset), 0, offset);
  }

  lemma TextFieldReadsBack(entries: seq<TiffEntry>, tag: nat, text: Bytes)
    requires IsText(text)
    requires Find(entries, tag) == if text == [] then None else Some(TiffEntry(tag, ASCII, |text| + 1, text + [0]))
    ensures TextOf(entries, tag) == TextField(text)
    ensures forall isDate: Bytes -> bool :: TimeOf(entries, tag, isDate) == if IsTime(text, isDate) then Some(text) else None
    ensures OffsetOf(entries, tag) == OffsetSeconds(text)
  {
    TextReadsBack(tag, text);
  }

  lemma NothingFound(entries: seq<TiffEntry>, tag: nat)
    requires Find(entries, tag) == None
    ensures TextOf(entries, tag) == None && OffsetOf(entries, tag) == None && NumberOf(entries, tag, false) == None
    ensures forall isDate: Bytes -> bool :: TimeOf(entries, tag, isDate) == None
  {
  }

  lemma LocationReadsBack(s: ExifSpec, gps: seq<TiffEntry>)
    requires IsSpec(s) && gps == if s.gps.Some? then ResolvedAll(GpsEntries(s)) else []
    ensures LocationOf(gps, false) == if s.gps.None? then None else Some(Location(Stored(s.gps.value.0), Stored(s.gps.value.1), None))
  {
    hide ResolvedAll, GpsEntries, Find, CoordinateFrom, CoordinateValue, AngleOf, AngleValue, AsciiValue;
    if s.gps.Some? {
      var (latitude, longitude) := s.gps.value;
      FindInGps(s, 1);
      FindInGps(s, 2);
      FindInGps(s, 3);
      FindInGps(s, 4);
      FindInGps(s, 6);
      CoordinateReadsBack(2, latitude);
      CoordinateReadsBack(4, longitude);
      TextReadsBack(1, if latitude >= 0.0 then NORTH_TEXT else SOUTH_TEXT);
      TextReadsBack(3, if longitude >= 0.0 then EAST_TEXT else WEST_TEXT);
      AngleIsClose(latitude, 90);
      AngleIsClose(longitude, 180);
    } else {
      FindNothing(2);
    }
  }

  lemma CaptureReadsBack(s: ExifSpec, ifd0: seq<TiffEntry>, exif: seq<TiffEntry>, isDate: Bytes -> bool)
    requires IsSpec(s) && HasTexts(s) && ifd0 == ResolvedAll(PrimaryEntries(s)) && exif == ResolvedAll(ExifEntries(s))
    ensures CaptureOf(ifd0, exif, isDate) ==
      if IsTime(s.dateTimeOriginal, isDate) then Some(Capture(s.dateTimeOriginal, OffsetSeconds(s.offsetTimeOriginal))) else None
  {
    hide ResolvedAll, PrimaryEntries, ExifEntries, Find, TimeOf, OffsetOf, IsTime, OffsetSeconds, IsText;
    FindInExif(s, 0x9003);
    FindInExif(s, 0x9011);
    FindInExif(s, 0x9010);
    FindInPrimary(s, 0x0132);
    TextFieldReadsBack(exif, 0x9003, s.dateTimeOriginal);
    TextFieldReadsBack(exif, 0x9011, s.offsetTimeOriginal);
    NothingFound(exif, 0x9010);
    NothingFound(ifd0, 0x0132);
  }

  /** The fields of a written block are the ones it was written for. */
  lemma BlockReadsBack(s: ExifSpec, parsers: Parsers)
    requires IsSpec(s) && HasTexts(s)
    ensures BlockFields(TiffBlock(s), parsers) == Some(Expected(s, parsers.isDate))
  {
    hide Ifd, ResolvedAll, TiffBlock, PrimaryEntries, ExifEntries, GpsEntries, Find, CaptureOf, LocationOf, TextOf, NumberOf, IsTime, OffsetSeconds, IsText, Stored, Stands, SubDirectory, ReadU16, ReadU32;
    var tiff, ifd0, exif, gps := TiffBlock(s), ResolvedAll(PrimaryEntries(s)), ResolvedAll(ExifEntries(s)), if s.gps.Some? then ResolvedAll(GpsEntries(s)) else [];
    BlockPlaces(s);
    HeaderReadsBack(tiff);
    DirectoriesReadBack(s);
    ExifDirectory(s, tiff, ifd0);
    GpsDirectory(s, tiff, ifd0);
    PrimaryReadsBack(s, ifd0);
    NothingElse(s, exif);
    CaptureReadsBack(s, ifd0, exif, parsers.isDate);
    FindInPrimary(s, 0x02bc);
    LocationReadsBack(s, gps);
  }

  lemma PrimaryReadsBack(s: ExifSpec, ifd0: seq<TiffEntry>)
    requires IsSpec(s) && HasTexts(s) && ifd0 == ResolvedAll(PrimaryEntries(s))
    ensures TextOf(ifd0, 0x010f) == TextField(s.make) && TextOf(ifd0, 0x0110) == TextField(s.model)
    ensures NumberOf(ifd0, 0x0112, false) == Some(s.orientation)
  {
    hide ResolvedAll, PrimaryEntries, Find, TextOf, NumberOf, IsText;
    FindInPrimary(s, 0x010f);
    FindInPrimary(s, 0x0110);
    FindInPrimary(s, 0x0112);
    TextFieldReadsBack(ifd0, 0x010f, s.make);
    TextFieldReadsBack(ifd0, 0x0110, s.model);
    OrientationReadsBack(ifd0, s.orientation);
  }

  lemma NothingElse(s: ExifSpec, exif: seq<TiffEntry>)
    requires IsSpec(s) && exif == ResolvedAll(ExifEntries(s))
    ensures TextOf(exif, 0xa434) == None && NumberOf(exif, 0xa002, false) == None && NumberOf(exif, 0xa003, false) == None
  {
    hide ResolvedAll, ExifEntries, Find, TextOf, NumberOf;
    FindInExif(s, 0xa434);
    FindInExif(s, 0xa002);
    FindInExif(s, 0xa003);
    NothingFound(exif, 0xa434);
    NothingFound(exif, 0xa002);
    NothingFound(exif, 0xa003);
  }

  lemma OrientationReadsBack(ifd0: seq<TiffEntry>, orientation: nat)
    requires orientation < 0x10000 && Find(ifd0, 0x0112) == Some(TiffEntry(0x0112, SHORT, 1, L16(orientation)))
    ensures NumberOf(ifd0, 0x0112, false) == Some(orientation)
  {
    L16IsRead(L16(orientation), 0, orientation);
  }

  lemma ExifDirectory(s: ExifSpec, tiff: Bytes, ifd0: seq<TiffEntry>)
    requires IsSpec(s) && tiff == TiffBlock(s) && ifd0 == ResolvedAll(PrimaryEntries(s))
    ensures SubDirectory(tiff, ifd0, 0x8769, false) == ResolvedAll(ExifEntries(s))
  {
    hide Ifd, ResolvedAll, TiffBlock, PrimaryEntries, ExifEntries, Find;
    FindInPrimary(s, 0x8769);
    DirectoriesReadBack(s);
    if ExifEntries(s) != [] {
      SubDirectoryReadsBack(tiff, ifd0, 0x8769, ExifOffset(s));
    } else {
      FindNothing(0);
    }
  }

  lemma GpsDirectory(s: ExifSpec, tiff: Bytes, ifd0: seq<TiffEntry>)
    requires IsSpec(s) && tiff == TiffBlock(s) && ifd0 == ResolvedAll(PrimaryEntries(s))
    ensures SubDirectory(tiff, ifd0, 0x8825, false) == if s.gps.Some? then ResolvedAll(GpsEntries(s)) else []
  {
    hide Ifd, ResolvedAll, TiffBlock, PrimaryEntries, GpsEntries, Find;
    FindInPrimary(s, 0x8825);
    DirectoriesReadBack(s);
    if s.gps.Some? {
      SubDirectoryReadsBack(tiff, ifd0, 0x8825, GpsOffset(s));
    }
  }

  /** Coordinates come back within 1/7200000 of a degree. */
  lemma CoordinatesComeBack(value: real)
    ensures -1.0 / 7200000.0 <= Stored(value) - value <= 1.0 / 7200000.0
  {
    AngleIsClose(value, 0);
  }

  function AllEntries(s: ExifSpec): seq<Entry>
    requires IsSpec(s)
  {
    PrimaryEntries(s) + ExifEntries(s) + GpsEntries(s)
  }

  lemma AreaIsAllData(s: ExifSpec)
    requires IsSpec(s)
    ensures DataArea(s) == DataAfter([], AllEntries(s)) && DataOffset(s) % 2 == 0
  {
    hide PrimaryEntries, ExifEntries, GpsEntries, DataAfter;
    DataOfBoth([], PrimaryEntries(s), ExifEntries(s));
    DataOfBoth([], PrimaryEntries(s) + ExifEntries(s), GpsEntries(s));
  }

  lemma ValueStandsInBlock(s: ExifSpec, i: nat)
    requires IsSpec(s) && i < |AllEntries(s)|
    ensures Stands(TiffBlock(s), DataOffset(s) + PlaceOf(AllEntries(s), i), AllEntries(s)[i].externalValue)
  {
    hide AllEntries, PlaceOf, TiffBlock, DataAfter, DataOffset, DataArea, IfdBytes;
    var value, place := AllEntries(s)[i].externalValue, PlaceOf(AllEntries(s), i);
    AreaIsAllData(s);
    BlockPlaces(s);
    ValueStandsAtItsPlace(AllEntries(s), i);
    StandingPart(TiffBlock(s), DataOffset(s), DataArea(s), place, |value|);
  }

  /** Every value that is not kept in its entry stands whole at its even place in the block, apart from all others. */
  lemma ValuesStandApart(s: ExifSpec, i: nat, j: nat)
    requires IsSpec(s) && i < j < |AllEntries(s)|
    ensures var all, base := AllEntries(s), DataOffset(s);
      && (base + PlaceOf(all, i)) % 2 == 0 && base + PlaceOf(all, i) + |all[i].externalValue| <= base + PlaceOf(all, j)
      && Stands(TiffBlock(s), base + PlaceOf(all, i), all[i].externalValue)
      && Stands(TiffBlock(s), base + PlaceOf(all, j), all[j].externalValue)
  {
    hide AllEntries, PlaceOf, TiffBlock, DataAfter, DataOffset, DataArea, Stands;
    AreaIsAllData(s);
    ValuesDoNotOverlap(AllEntries(s), i, j);
    ValueStandsInBlock(s, i);
    ValueStandsInBlock(s, j);
  }
}
