/** Reading the directories of a TIFF block, as EXIF metadata is stored (section 2 of TIFF 6.0). */
module TiffReader {
  import opened BigEndian
  import opened Media

  // ----- numbers in either byte order -----

  function L16(n: nat): (b: Bytes)
    requires n < 0x10000
    ensures |b| == 2
  {
    [n % 256, n / 256]
  }

  function L32(n: nat): (b: Bytes)
    requires n < TWO32
    ensures |b| == 4
  {
    [n % 256, n / 256 % 256, n / 0x10000 % 256, n / 0x1000000]
  }

  function ReadU16(bytes: Bytes, offset: int, bigEndian: bool): Option<nat> {
    if offset < 0 || offset + 2 > |bytes| then None
    else
      var first: int, second: int := bytes[offset], bytes[offset + 1];
      Some(if bigEndian then first * 256 + second else second * 256 + first)
  }

  function ReadU32(bytes: Bytes, offset: int, bigEndian: bool): Option<nat> {
    if offset < 0 || offset + 4 > |bytes| then None
    else
      var b := bytes[offset..offset + 4];
      Some(FromU32(if bigEndian then b else [b[3], b[2], b[1], b[0]]))
  }

  lemma L16IsRead(bytes: Bytes, offset: nat, n: nat)
    requires n < 0x10000 && offset + 2 <= |bytes| && bytes[offset..offset + 2] == L16(n)
    ensures ReadU16(bytes, offset, false) == Some(n)
  {
    assert bytes[offset..offset + 2][0] == bytes[offset] && bytes[offset..offset + 2][1] == bytes[offset + 1];
  }

  lemma L32IsRead(bytes: Bytes, offset: nat, n: nat)
    requires n < TWO32 && offset + 4 <= |bytes| && bytes[offset..offset + 4] == L32(n)
    ensures ReadU32(bytes, offset, false) == Some(n)
  {
    U32Inverse(n, []);
    var b := bytes[offset..offset + 4];
    assert [b[3], b[2], b[1], b[0]] == U32(n);
  }

  // ----- directories -----

  const BYTE_TYPE: nat := 1
  const ASCII: nat := 2
  const SHORT: nat := 3
  const LONG: nat := 4
  const RATIONAL: nat := 5
  const UNDEFINED: nat := 7
  const SLONG: nat := 9
  const SRATIONAL: nat := 10

  const MAXIMUM_IFD_ENTRIES: nat := 512

  /** The size of one value, or 0 for a type that is not understood. */
  function SizeOfType(kind: nat): nat {
    if kind == BYTE_TYPE || kind == ASCII || kind == UNDEFINED then 1
    else if kind == SHORT then 2
    else if kind == LONG || kind == SLONG then 4
    else if kind == RATIONAL || kind == SRATIONAL then 8
    else 0
  }

  datatype TiffEntry = TiffEntry(tag: nat, kind: nat, count: nat, value: Bytes)

  datatype EntryRead = Unreadable | Skipped | Read(entry: TiffEntry)

  /** The twelve bytes of an entry, and its value: in place if it fits, else where they point to. */
  function ReadEntry(tiff: Bytes, at: nat, bigEndian: bool): EntryRead {
    var tag, kind, count, valueOffset :=
      ReadU16(tiff, at, bigEndian), ReadU16(tiff, at + 2, bigEndian), ReadU32(tiff, at + 4, bigEndian), ReadU32(tiff, at + 8, bigEndian);
    if tag.None? || kind.None? || count.None? || valueOffset.None? then Unreadable
    else
      var size := SizeOfType(kind.value) * count.value;
      if SizeOfType(kind.value) == 0 || size > |tiff| then Skipped
      else if size <= 4 then Read(TiffEntry(tag.value, kind.value, count.value, tiff[at + 8..at + 8 + size]))
      else if valueOffset.value + size > |tiff| then Skipped
      else Read(TiffEntry(tag.value, kind.value, count.value, tiff[valueOffset.value..valueOffset.value + size]))
  }

  /** What was read of a directory; entries read before an unreadable one are kept. */
  datatype Directory = Directory(ok: bool, entries: seq<TiffEntry>)

  function ReadEntries(tiff: Bytes, at: nat, n: nat, bigEndian: bool): Directory
    decreases n
  {
    if n == 0 then Directory(true, [])
    else match ReadEntry(tiff, at, bigEndian)
      case Unreadable => Directory(false, [])
      case Skipped => ReadEntries(tiff, at + 12, n - 1, bigEndian)
      case Read(entry) =>
        var others := ReadEntries(tiff, at + 12, n - 1, bigEndian);
        Directory(others.ok, [entry] + others.entries)
  }

  function Ifd(tiff: Bytes, offset: nat, bigEndian: bool): Directory {
    var count := ReadU16(tiff, offset, bigEndian);
    if count.None? || count.value > MAXIMUM_IFD_ENTRIES then Directory(false, [])
    else ReadEntries(tiff, offset + 2, count.value, bigEndian)
  }

  /** What was read so far, followed by what is still to be read. */
  function Continued(entries: seq<TiffEntry>, rest: Directory): Directory {
    Directory(rest.ok, entries + rest.entries)
  }

  lemma OneEntryFurther(entries: seq<TiffEntry>, tiff: Bytes, at: nat, n: nat, bigEndian: bool)
    requires n > 0
    ensures Continued(entries, ReadEntries(tiff, at, n, bigEndian)) ==
      match ReadEntry(tiff, at, bigEndian)
      case Unreadable => Directory(false, entries)
      case Skipped => Continued(entries, ReadEntries(tiff, at + 12, n - 1, bigEndian))
      case Read(entry) => Continued(entries + [entry], ReadEntries(tiff, at + 12, n - 1, bigEndian))
  {
    hide ReadEntry;
    match ReadEntry(tiff, at, bigEndian)
    case Unreadable =>
      assert entries + [] == entries;
    case Skipped =>
    case Read(entry) =>
      var others := ReadEntries(tiff, at + 12, n - 1, bigEndian);
      assert entries + ([entry] + others.entries) == entries + [entry] + others.entries;
  }

  lemma NothingMore(entries: seq<TiffEntry>, tiff: Bytes, at: nat, bigEndian: bool)
    ensures Continued(entries, ReadEntries(tiff, at, 0, bigEndian)) == Directory(true, entries)
  {
    assert entries + [] == entries;
  }

  lemma NothingYet(rest: Directory)
    ensures Continued([], rest) == rest
  {
    assert [] + rest.entries == rest.entries;
  }

  method ReadIfd(tiff: Bytes, offset: nat, bigEndian: bool) returns (ok: bool, entries: seq<TiffEntry>)
    ensures Directory(ok, entries) == Ifd(tiff, offset, bigEndian)
  {
    hide ReadEntry, ReadU16, ReadEntries, Continued;
    entries := [];
    var count := ReadU16(tiff, offset, bigEndian);
    if count.None? || count.value > MAXIMUM_IFD_ENTRIES {
      return false, [];
    }
    var at := offset + 2;
    NothingYet(ReadEntries(tiff, at, count.value, bigEndian));
    for index := 0 to count.value
      invariant at >= 0 && Ifd(tiff, offset, bigEndian) == Continued(entries, ReadEntries(tiff, at, count.value - index, bigEndian))
    {
      OneEntryFurther(entries, tiff, at, count.value - index, bigEndian);
      match ReadEntry(tiff, at, bigEndian)
      case Unreadable =>
        return false, entries;
      case Skipped =>
        at := at + 12;
      case Read(entry) =>
        entries := entries + [entry];
        at := at + 12;
    }
    NothingMore(entries, tiff, at, bigEndian);
    ok := true;
  }

  function Find(entries: seq<TiffEntry>, tag: nat): Option<TiffEntry> {
    if entries == [] then None else if entries[0].tag == tag then Some(entries[0]) else Find(entries[1..], tag)
  }

  // ----- values -----

  predicate IsSpace(b: Byte) {
    b == 32 || 9 <= b <= 13 || b == 0x85 || b == 0xa0
  }

  function UpToNul(text: Bytes): Bytes {
    if text == [] || text[0] == 0 then [] else [text[0]] + UpToNul(text[1..])
  }

  function TrimmedLeft(text: Bytes): Bytes {
    if text != [] && IsSpace(text[0]) then TrimmedLeft(text[1..]) else text
  }

  function TrimmedRight(text: Bytes): Bytes {
    if text != [] && IsSpace(text[|text| - 1]) then TrimmedRight(text[..|text| - 1]) else text
  }

  /** Text in Latin-1. */
  function AsciiValue(e: TiffEntry): Bytes {
    if e.kind != ASCII then [] else TrimmedRight(TrimmedLeft(UpToNul(e.value)))
  }

  function IntegerValue(e: TiffEntry, bigEndian: bool): Option<nat> {
    if e.kind == SHORT then ReadU16(e.value, 0, bigEndian)
    else if e.kind == LONG || e.kind == SLONG then ReadU32(e.value, 0, bigEndian)
    else if e.kind == BYTE_TYPE && e.value != [] then Some(e.value[0])
    else None
  }

  function RationalAt(e: TiffEntry, index: nat, bigEndian: bool): Option<real> {
    if e.kind != RATIONAL && e.kind != SRATIONAL then None
    else
      var numerator, denominator := ReadU32(e.value, index * 8, bigEndian), ReadU32(e.value, index * 8 + 4, bigEndian);
      if numerator.None? || denominator.None? || denominator.value == 0 then None
      else Some(numerator.value as real / denominator.value as real)
  }

  function CoordinateFrom(e: TiffEntry, bigEndian: bool): Option<real> {
    if e.count < 3 then None
    else
      var degrees, minutes, seconds := RationalAt(e, 0, bigEndian), RationalAt(e, 1, bigEndian), RationalAt(e, 2, bigEndian);
      if degrees.None? || minutes.None? || seconds.None? then None
      else Some(degrees.value + minutes.value / 60.0 + seconds.value / 3600.0)
  }

  function Rotation(orientation: nat): (degrees: int)
    ensures degrees in {0, 90, 180, 270}
  {
    if orientation == 3 || orientation == 4 then 180
    else if orientation == 5 || orientation == 6 then 90
    else if orientation == 7 || orientation == 8 then 270
    else 0
  }

  predicate IsDigit(b: Byte) { 48 <= b <= 57 }

  function TwoDigits(tens: Byte, ones: Byte): Option<int> {
    if !IsDigit(tens) || !IsDigit(ones) then None
    else
      var t: int, o: int := tens, ones;
      Some((t - 48) * 10 + (o - 48))
  }

  /** An offset of the form +HH:MM, in seconds. */
  function OffsetSeconds(text: Bytes): Option<int> {
    if |text| < 6 || (text[0] != 43 && text[0] != 45) then None
    else
      var hours, minutes := TwoDigits(text[1], text[2]), TwoDigits(text[4], text[5]);
      if hours.None? || minutes.None? || hours.value > 23 || minutes.value > 59 then None
      else
        var seconds := hours.value * 3600 + minutes.value * 60;
        Some(if text[0] == 45 then -seconds else seconds)
  }

  datatype Location = Location(latitude: real, longitude: real, altitude: Option<real>)

  predicate IsLocation(latitude: real, longitude: real) {
    -90.0 <= latitude <= 90.0 && -180.0 <= longitude <= 180.0
  }

  predicate StartsWith(text: Bytes, b: Byte) {
    text != [] && text[0] == b
  }

  function Signed(value: real, reference: Option<TiffEntry>, negative: Byte): real {
    if reference.Some? && StartsWith(AsciiValue(reference.value), negative) then -value else value
  }

  const SOUTH: Byte := 83
  const WEST: Byte := 87

  function AltitudeOf(gps: seq<TiffEntry>, bigEndian: bool): Option<real> {
    var altitude, reference := Find(gps, 6), Find(gps, 5);
    if altitude.None? || RationalAt(altitude.value, 0, bigEndian).None? then None
    else
      var metres := RationalAt(altitude.value, 0, bigEndian).value;
      Some(if reference.Some? && IntegerValue(reference.value, bigEndian) == Some(1) then -metres else metres)
  }

  function LocationOf(gps: seq<TiffEntry>, bigEndian: bool): Option<Location> {
    var latitude, longitude := Find(gps, 2), Find(gps, 4);
    if latitude.None? || longitude.None? then None
    else
      var north, east := CoordinateFrom(latitude.value, bigEndian), CoordinateFrom(longitude.value, bigEndian);
      if north.None? || east.None? then None
      else
        var lat, lon := Signed(north.value, Find(gps, 1), SOUTH), Signed(east.value, Find(gps, 3), WEST);
        if !IsLocation(lat, lon) then None else Some(Location(lat, lon, AltitudeOf(gps, bigEndian)))
  }

  // ----- a whole block -----

  /** A wall-clock time as text, with its offset if that is known. */
  datatype Capture = Capture(text: Bytes, offset: Option<int>)

  datatype ExifFields = ExifFields(make: Option<Bytes>, model: Option<Bytes>, lens: Option<Bytes>, rotation: Option<int>,
                                   width: Option<int>, height: Option<int>, capture: Option<Capture>, location: Option<Location>,
                                   caption: Option<Bytes>, rating: Option<int>, tags: Option<seq<Bytes>>)

  /** What an XMP packet says. */
  datatype Packet = Packet(capture: Option<Capture>, caption: Option<Bytes>, rating: Option<int>, tags: Option<seq<Bytes>>)

  const NO_PACKET := Packet(None, None, None, None)
  const NO_EXIF := ExifFields(None, None, None, None, None, None, None, None, None, None, None)

  /** What other parsers make of a text as a date, and of an XMP packet. */
  datatype Parsers = Parsers(isDate: Bytes -> bool, xmp: Bytes -> Option<Packet>)

  function Over<T>(later: Option<T>, earlier: Option<T>): Option<T> {
    if later.Some? then later else earlier
  }

  /** What a later packet says wins. */
  function WithPacket(fields: ExifFields, p: Packet): ExifFields {
    fields.(capture := Over(p.capture, fields.capture), caption := Over(p.caption, fields.caption),
            rating := Over(p.rating, fields.rating), tags := Over(p.tags, fields.tags))
  }

  function WithXmp(fields: ExifFields, packet: Option<Packet>): ExifFields {
    if packet.None? then fields else WithPacket(fields, packet.value)
  }

  /** The packet in the primary directory, if it can be read. */
  function EmbeddedPacket(ifd0: seq<TiffEntry>, xmp: Bytes -> Option<Packet>): Option<Packet> {
    var entry := Find(ifd0, 0x02bc);
    if entry.None? then None else xmp(entry.value.value)
  }

  function TextOf(entries: seq<TiffEntry>, tag: nat): Option<Bytes> {
    var entry := Find(entries, tag);
    if entry.None? || AsciiValue(entry.value) == [] then None else Some(AsciiValue(entry.value))
  }

  function NumberOf(entries: seq<TiffEntry>, tag: nat, bigEndian: bool): Option<nat> {
    var entry := Find(entries, tag);
    if entry.None? then None else IntegerValue(entry.value, bigEndian)
  }

  function Positive(n: Option<nat>): Option<int> {
    if n.Some? && n.value > 0 then Some(Signed32(n.value)) else None
  }

  /** Neither empty, nor the placeholder of zeros, nor unreadable as a date. */
  predicate IsTime(text: Bytes, isDate: Bytes -> bool) {
    text != [] && !(|text| >= 4 && text[..4] == [48, 48, 48, 48]) && isDate(text)
  }

  function TimeOf(entries: seq<TiffEntry>, tag: nat, isDate: Bytes -> bool): Option<Bytes> {
    var entry := Find(entries, tag);
    if entry.Some? && IsTime(AsciiValue(entry.value), isDate) then Some(AsciiValue(entry.value)) else None
  }

  function OffsetOf(entries: seq<TiffEntry>, tag: nat): Option<int> {
    var entry := Find(entries, tag);
    if entry.None? then None else OffsetSeconds(AsciiValue(entry.value))
  }

  function CaptureOf(ifd0: seq<TiffEntry>, exif: seq<TiffEntry>, isDate: Bytes -> bool): Option<Capture> {
    var original, modified := TimeOf(exif, 0x9003, isDate), TimeOf(ifd0, 0x0132, isDate);
    var offset := if OffsetOf(exif, 0x9011).Some? then OffsetOf(exif, 0x9011) else OffsetOf(exif, 0x9010);
    if original.Some? then Some(Capture(original.value, offset))
    else if modified.Some? then Some(Capture(modified.value, offset))
    else None
  }

  function SubDirectory(tiff: Bytes, ifd0: seq<TiffEntry>, tag: nat, bigEndian: bool): seq<TiffEntry> {
    var pointer := NumberOf(ifd0, tag, bigEndian);
    if pointer.None? then [] else Ifd(tiff, pointer.value, bigEndian).entries
  }

  /** The fields of an EXIF block, or nothing if its header or primary directory is unusable. */
  function BlockFields(tiff: Bytes, parsers: Parsers): Option<ExifFields> {
    if |tiff| < 2 || (tiff[..2] != [77, 77] && tiff[..2] != [73, 73]) then None
    else
      var bigEndian := tiff[..2] == [77, 77];
      var first := ReadU32(tiff, 4, bigEndian);
      if ReadU16(tiff, 2, bigEndian) != Some(42) || first.None? then None
      else
        var ifd0 := Ifd(tiff, first.value, bigEndian);
        if !ifd0.ok then None
        else
          var exif, gps := SubDirectory(tiff, ifd0.entries, 0x8769, bigEndian), SubDirectory(tiff, ifd0.entries, 0x8825, bigEndian);
          var orientation := NumberOf(ifd0.entries, 0x0112, bigEndian);
          Some(WithXmp(ExifFields(TextOf(ifd0.entries, 0x010f), TextOf(ifd0.entries, 0x0110), TextOf(exif, 0xa434),
                                  if orientation.None? then None else Some(Rotation(orientation.value)),
                                  Positive(NumberOf(exif, 0xa002, bigEndian)), Positive(NumberOf(exif, 0xa003, bigEndian)),
                                  CaptureOf(ifd0.entries, exif, parsers.isDate), LocationOf(gps, bigEndian), None, None, None),
                       EmbeddedPacket(ifd0.entries, parsers.xmp)))
  }

  method ReadExifTiffBlock(tiff: Bytes, parsers: Parsers) returns (ok: bool, fields: ExifFields)
    ensures ok <==> BlockFields(tiff, parsers).Some?
    ensures ok ==> BlockFields(tiff, parsers) == Some(fields)
    ensures !ok ==> fields == NO_EXIF
  {
    hide Ifd, LocationOf, CaptureOf, TextOf, NumberOf, Signed32;
    fields := NO_EXIF;
    if |tiff| < 2 || (tiff[..2] != [77, 77] && tiff[..2] != [73, 73]) {
      return false, fields;
    }
    var bigEndian := tiff[..2] == [77, 77];
    var magic, first := ReadU16(tiff, 2, bigEndian), ReadU32(tiff, 4, bigEndian);
    if magic != Some(42) || first.None? {
      return false, fields;
    }
    var readable, ifd0 := ReadIfd(tiff, first.value, bigEndian);
    if !readable {
      return false, fields;
    }
    var exif := ReadSubDirectory(tiff, ifd0, 0x8769, bigEndian);
    var gps := ReadSubDirectory(tiff, ifd0, 0x8825, bigEndian);
    fields := fields.(make := TextOf(ifd0, 0x010f), model := TextOf(ifd0, 0x0110), lens := TextOf(exif, 0xa434));
    var orientation := NumberOf(ifd0, 0x0112, bigEndian);
    if orientation.Some? {
      fields := fields.(rotation := Some(Rotation(orientation.value)));
    }
    var width, height := NumberOf(exif, 0xa002, bigEndian), NumberOf(exif, 0xa003, bigEndian);
    if width.Some? && width.value > 0 {
      fields := fields.(width := Some(Signed32(width.value)));
    }
    if height.Some? && height.value > 0 {
      fields := fields.(height := Some(Signed32(height.value)));
    }
    fields := fields.(capture := CaptureOf(ifd0, exif, parsers.isDate));
    fields := fields.(location := LocationOf(gps, bigEndian));
    var packet := EmbeddedPacket(ifd0, parsers.xmp);
    if packet.Some? {
      fields := WithPacket(fields, packet.value);
    }
    ok := true;
  }

  method ReadSubDirectory(tiff: Bytes, ifd0: seq<TiffEntry>, tag: nat, bigEndian: bool) returns (entries: seq<TiffEntry>)
    ensures entries == SubDirectory(tiff, ifd0, tag, bigEndian)
  {
    var pointer := NumberOf(ifd0, tag, bigEndian);
    entries := [];
    if pointer.Some? {
      var ok, read := ReadIfd(tiff, pointer.value, bigEndian);
      entries := read;
    }
  }
}
