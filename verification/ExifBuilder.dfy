/** Writing an EXIF block (section 2 of TIFF 6.0; section 4.6 of CIPA DC-008). */
module ExifBuilder {
  import opened BigEndian
  import opened Media
  import opened Placement
  import opened TiffReader

  /** An entry keeps its value in place if it fits into four bytes, otherwise in the data area. */
  datatype Entry = Entry(tag: nat, kind: nat, count: nat, inlineValue: Bytes, externalValue: Bytes)

  /** What a reader should make of the entry. */
  function Resolved(e: Entry): TiffEntry
    requires IsEntry(e)
  {
    TiffEntry(e.tag, e.kind, e.count, if e.externalValue == [] then e.inlineValue[..SizeOfType(e.kind) * e.count] else e.externalValue)
  }

  predicate IsEntry(e: Entry) {
    && e.tag < 0x10000 && e.kind < 0x10000 && e.count < 0x10000 && SizeOfType(e.kind) > 0
    && (e.externalValue == [] ==> |e.inlineValue| == 4 && SizeOfType(e.kind) * e.count <= 4)
    && (e.externalValue != [] ==> SizeOfType(e.kind) * e.count == |e.externalValue| > 4)
  }

  function Zeros(n: nat): (zeros: Bytes)
    ensures |zeros| == n
  {
    if n == 0 then [] else Zeros(n - 1) + [0]
  }

  function AsciiEntry(tag: nat, text: Bytes): (e: Entry)
    ensures tag < 0x10000 && |text| < 0xffff ==> IsEntry(e) && Resolved(e) == TiffEntry(tag, ASCII, |text| + 1, text + [0])
  {
    var value := text + [0];
    if |value| <= 4 then
      assert (value + Zeros(4 - |value|))[..|value|] == value;
      Entry(tag, ASCII, |value|, value + Zeros(4 - |value|), [])
    else Entry(tag, ASCII, |value|, [], value)
  }

  function ShortEntry(tag: nat, value: nat): (e: Entry)
    requires value < 0x10000
    ensures tag < 0x10000 ==> IsEntry(e) && Resolved(e) == TiffEntry(tag, SHORT, 1, L16(value))
  {
    assert (L16(value) + [0, 0])[..2] == L16(value);
    Entry(tag, SHORT, 1, L16(value) + [0, 0], [])
  }

  function LongEntry(tag: nat, value: nat): (e: Entry)
    requires value < TWO32
    ensures tag < 0x10000 ==> IsEntry(e) && Resolved(e) == TiffEntry(tag, LONG, 1, L32(value))
  {
    Entry(tag, LONG, 1, L32(value), [])
  }

  // ----- coordinates -----

  function Abs(x: real): real { if x < 0.0 then -x else x }

  /** Degrees and minutes in whole numbers, seconds in thousandths, rounded to the nearest. */
  datatype Angle = Angle(degrees: nat, minutes: nat, milliseconds: nat)

  function AngleOf(value: real): (a: Angle)
    ensures a.minutes < 60 && a.milliseconds <= 60000 && a.degrees as real <= Abs(value)
  {
    var absolute := Abs(value);
    var degrees := absolute.Floor;
    var minutesValue := (absolute - degrees as real) * 60.0;
    var minutes := minutesValue.Floor;
    Angle(degrees, minutes, ((minutesValue - minutes as real) * 60.0 * 1000.0 + 0.5).Floor)
  }

  function AngleValue(a: Angle): real {
    a.degrees as real + a.minutes as real / 60.0 + a.milliseconds as real / 1000.0 / 3600.0
  }

  /** Rounding costs at most half a thousandth of a second, and never leaves a range of whole degrees. */
  lemma AngleIsClose(value: real, bound: nat)
    ensures -1.0 / 7200000.0 <= AngleValue(AngleOf(value)) - Abs(value) <= 1.0 / 7200000.0
    ensures Abs(value) <= bound as real ==> AngleValue(AngleOf(value)) <= bound as real
  {
    var a := AngleOf(value);
    var exact := ((Abs(value) - a.degrees as real) * 60.0 - a.minutes as real) * 60.0 * 1000.0;
    assert exact - 0.5 <= a.milliseconds as real <= exact + 0.5;
    assert Abs(value) == a.degrees as real + a.minutes as real / 60.0 + exact / 3600000.0;
    var total: int := 3600000 * a.degrees + 60000 * a.minutes + a.milliseconds;
    assert AngleValue(a) == total as real / 3600000.0;
    if Abs(value) <= bound as real {
      assert total as real <= Abs(value) * 3600000.0 + 0.5;
      assert total as real <= (3600000 * bound) as real + 0.5;
      assert total <= 3600000 * bound;
    }
  }

  function CoordinateValue(a: Angle): (b: Bytes)
    requires a.degrees < TWO32 && a.minutes < TWO32 && a.milliseconds < TWO32
    ensures |b| == 24
  {
    L32(a.degrees) + L32(1) + L32(a.minutes) + L32(1) + L32(a.milliseconds) + L32(1000)
  }

  function CoordinateEntry(tag: nat, value: real): (e: Entry)
    requires Abs(value) <= 180.0
    ensures tag < 0x10000 ==> IsEntry(e) && Resolved(e) == TiffEntry(tag, RATIONAL, 3, CoordinateValue(AngleOf(value)))
  {
    Entry(tag, RATIONAL, 3, [], CoordinateValue(AngleOf(value)))
  }

  // ----- directories and the data area -----

  function IfdSize(entryCount: nat): nat { 2 + 12 * entryCount + 4 }

  function Even(data: Bytes): Bytes {
    if |data| % 2 != 0 then data + [0] else data
  }

  /** The data area after an entry: longer by its value, if that is kept there, and even again. */
  function Placed(data: Bytes, e: Entry): Bytes {
    if e.externalValue == [] then data else Even(data + e.externalValue)
  }

  function DataAfter(data: Bytes, entries: seq<Entry>): (after: Bytes)
    ensures |data| <= |after| && after[..|data|] == data
    ensures |data| % 2 == 0 ==> |after| % 2 == 0
  {
    if entries == [] then data else Placed(DataAfter(data, entries[..|entries| - 1]), entries[|entries| - 1])
  }

  function EntryBytes(e: Entry, place: nat): (b: Bytes)
    requires IsEntry(e) && place < TWO32
    ensures |b| == 12
  {
    L16(e.tag) + L16(e.kind) + L32(e.count) + if e.externalValue == [] then e.inlineValue else L32(place)
  }

  /** The entries of a directory whose external values go to `base` plus the length of the data area so far. */
  function EntriesBytes(entries: seq<Entry>, base: nat, data: Bytes): (b: Bytes)
    requires (forall i | 0 <= i < |entries| :: IsEntry(entries[i])) && base + |DataAfter(data, entries)| < TWO32
    ensures |b| == 12 * |entries|
  {
    if entries == [] then []
    else
      var rest, last := entries[..|entries| - 1], entries[|entries| - 1];
      EntriesBytes(rest, base, data) + EntryBytes(last, base + |DataAfter(data, rest)|)
  }

  function IfdBytes(entries: seq<Entry>, base: nat, data: Bytes): (b: Bytes)
    requires (forall i | 0 <= i < |entries| :: IsEntry(entries[i])) && base + |DataAfter(data, entries)| < TWO32 && |entries| < 0x10000
    ensures |b| == IfdSize(|entries|)
  {
    L16(|entries|) + EntriesBytes(entries, base, data) + L32(0)
  }

  lemma DataGrows(data: Bytes, entries: seq<Entry>, i: nat)
    requires i <= |entries|
    ensures var part := DataAfter(data, entries[..i]); |part| <= |DataAfter(data, entries)| && DataAfter(data, entries)[..|part|] == part
    decreases |entries| - i
  {
    if i < |entries| {
      DataGrows(data, entries, i + 1);
      var part, more := DataAfter(data, entries[..i]), DataAfter(data, entries[..i + 1]);
      assert entries[..i + 1][..i] == entries[..i];
      assert more[..|part|] == part;
      assert DataAfter(data, entries)[..|more|][..|part|] == part;
    } else {
      assert entries[..i] == entries;
    }
  }

  method AppendIfd(target: Bytes, entries: seq<Entry>, data: Bytes, base: nat) returns (longer: Bytes, more: Bytes)
    requires (forall i | 0 <= i < |entries| :: IsEntry(entries[i])) && base + |DataAfter(data, entries)| < TWO32 && |entries| < 0x10000
    ensures longer == target + IfdBytes(entries, base, data) && more == DataAfter(data, entries)
  {
    hide IsEntry, EntryBytes;
    longer, more := target + L16(|entries|), data;
    assert entries[..0] == [];
    for i := 0 to |entries|
      invariant more == DataAfter(data, entries[..i]) && |more| <= |DataAfter(data, entries)|
      invariant longer == target + L16(|entries|) + EntriesBytes(entries[..i], base, data)
    {
      DataGrows(data, entries, i);
      DataGrows(data, entries, i + 1);
      assert entries[..i + 1][..i] == entries[..i];
      longer := longer + EntryBytes(entries[i], base + |more|);
      if entries[i].externalValue != [] {
        more := more + entries[i].externalValue;
        if |more| % 2 != 0 {
          more := more + [0];
        }
      }
    }
    assert entries[..|entries|] == entries;
    longer := longer + L32(0);
  }

  lemma {:induction false} DataOfBoth(data: Bytes, a: seq<Entry>, b: seq<Entry>)
    ensures DataAfter(data, a + b) == DataAfter(DataAfter(data, a), b)
  {
    if b == [] {
      assert a + b == a;
    } else {
      assert (a + b)[..|a + b| - 1] == a + b[..|b| - 1];
      DataOfBoth(data, a, b[..|b| - 1]);
    }
  }

  /** Where the value of entry `i` goes in the data area. */
  function PlaceOf(entries: seq<Entry>, i: nat): nat
    requires i < |entries|
  {
    |DataAfter([], entries[..i])|
  }

  /** Every value kept in the data area stands at an even place, whole, and before the next one. */
  lemma ValuesDoNotOverlap(entries: seq<Entry>, i: nat, j: nat)
    requires i < j < |entries|
    ensures PlaceOf(entries, i) % 2 == 0 && PlaceOf(entries, j) % 2 == 0
    ensures PlaceOf(entries, i) + |entries[i].externalValue| <= PlaceOf(entries, j)
    ensures Stands(DataAfter([], entries), PlaceOf(entries, i), entries[i].externalValue)
  {
    ValueStandsAtItsPlace(entries, i);
    var upTo := entries[..j];
    DataGrows([], upTo, i + 1);
    assert upTo[..i + 1] == entries[..i + 1];
  }

  lemma ValueStandsAtItsPlace(entries: seq<Entry>, i: nat)
    requires i < |entries|
    ensures PlaceOf(entries, i) % 2 == 0
    ensures PlaceOf(entries, i) + |entries[i].externalValue| <= |DataAfter([], entries[..i + 1])|
    ensures Stands(DataAfter([], entries), PlaceOf(entries, i), entries[i].externalValue)
  {
    ValueStands([], entries, i);
  }

  lemma ValueStands(data: Bytes, entries: seq<Entry>, i: nat)
    requires i < |entries|
    ensures |DataAfter(data, entries[..i])| + |entries[i].externalValue| <= |DataAfter(data, entries[..i + 1])|
    ensures Stands(DataAfter(data, entries), |DataAfter(data, entries[..i])|, entries[i].externalValue)
  {
    DataGrows(data, entries, i + 1);
    var before, after, whole := DataAfter(data, entries[..i]), DataAfter(data, entries[..i + 1]), DataAfter(data, entries);
    assert entries[..i + 1][..i] == entries[..i];
    var value := entries[i].externalValue;
    assert after[|before|..|before| + |value|] == value;
    assert whole[|before|..|before| + |value|] == whole[..|after|][|before|..|before| + |value|];
  }

  // ----- the block -----

  /** Texts are Latin-1. */
  datatype ExifSpec = ExifSpec(make: Bytes, model: Bytes, orientation: nat, dateTimeOriginal: Bytes,
                               offsetTimeOriginal: Bytes, gps: Option<(real, real)>)

  predicate IsSpec(s: ExifSpec) {
    && |s.make| < 0xffff && |s.model| < 0xffff && |s.dateTimeOriginal| < 0xffff && |s.offsetTimeOriginal| < 0xffff
    && s.orientation < 0x10000 && (s.gps.Some? ==> IsLocation(s.gps.value.0, s.gps.value.1))
  }

  function TextEntries(tag: nat, text: Bytes): (entries: seq<Entry>)
    ensures tag < 0x10000 && |text| < 0xffff ==> forall i | 0 <= i < |entries| :: IsEntry(entries[i])
    ensures |entries| == if text == [] then 0 else 1
  {
    if text == [] then [] else [AsciiEntry(tag, text)]
  }

  function Basics(s: ExifSpec): (entries: seq<Entry>)
    requires IsSpec(s)
    ensures 1 <= |entries| <= 3 && forall i | 0 <= i < |entries| :: IsEntry(entries[i])
  {
    TextEntries(0x010f, s.make) + TextEntries(0x0110, s.model) + [ShortEntry(0x0112, s.orientation)]
  }

  function ExifEntries(s: ExifSpec): (entries: seq<Entry>)
    requires IsSpec(s)
    ensures |entries| <= 2 && forall i | 0 <= i < |entries| :: IsEntry(entries[i])
  {
    TextEntries(0x9003, s.dateTimeOriginal) + TextEntries(0x9011, s.offsetTimeOriginal)
  }

  const NORTH_TEXT: Bytes := [78]
  const SOUTH_TEXT: Bytes := [83]
  const EAST_TEXT: Bytes := [69]
  const WEST_TEXT: Bytes := [87]

  function GpsEntries(s: ExifSpec): (entries: seq<Entry>)
    requires IsSpec(s)
    ensures |entries| == (if s.gps.Some? then 4 else 0) && forall i | 0 <= i < |entries| :: IsEntry(entries[i])
  {
    if s.gps.None? then []
    else
      var (latitude, longitude) := s.gps.value;
      [AsciiEntry(1, if latitude >= 0.0 then NORTH_TEXT else SOUTH_TEXT), CoordinateEntry(2, latitude),
       AsciiEntry(3, if longitude >= 0.0 then EAST_TEXT else WEST_TEXT), CoordinateEntry(4, longitude)]
  }

  function PrimaryCount(s: ExifSpec): nat
    requires IsSpec(s)
  {
    |Basics(s)| + (if ExifEntries(s) != [] then 1 else 0) + (if s.gps.Some? then 1 else 0)
  }

  function ExifOffset(s: ExifSpec): nat
    requires IsSpec(s)
  {
    8 + IfdSize(PrimaryCount(s))
  }

  function GpsOffset(s: ExifSpec): nat
    requires IsSpec(s)
  {
    ExifOffset(s) + if ExifEntries(s) != [] then IfdSize(|ExifEntries(s)|) else 0
  }

  function DataOffset(s: ExifSpec): nat
    requires IsSpec(s)
  {
    GpsOffset(s) + if s.gps.Some? then IfdSize(|GpsEntries(s)|) else 0
  }

  function PrimaryEntries(s: ExifSpec): (entries: seq<Entry>)
    requires IsSpec(s)
    ensures |entries| == PrimaryCount(s) && forall i | 0 <= i < |entries| :: IsEntry(entries[i])
  {
    Basics(s) + (if ExifEntries(s) != [] then [LongEntry(0x8769, ExifOffset(s))] else [])
      + (if s.gps.Some? then [LongEntry(0x8825, GpsOffset(s))] else [])
  }

  function DataAfterPrimary(s: ExifSpec): Bytes
    requires IsSpec(s)
  {
    DataAfter([], PrimaryEntries(s))
  }

  function DataAfterExif(s: ExifSpec): Bytes
    requires IsSpec(s)
  {
    DataAfter(DataAfterPrimary(s), ExifEntries(s))
  }

  function DataArea(s: ExifSpec): Bytes
    requires IsSpec(s)
  {
    DataAfter(DataAfterExif(s), GpsEntries(s))
  }

  lemma {:induction false} DataIsSmall(data: Bytes, entries: seq<Entry>)
    requires forall i | 0 <= i < |entries| :: IsEntry(entries[i])
    ensures |DataAfter(data, entries)| <= |data| + 0x80001 * |entries|
  {
    if entries != [] {
      DataIsSmall(data, entries[..|entries| - 1]);
      var last := entries[|entries| - 1];
      assert SizeOfType(last.kind) <= 8;
      assert |last.externalValue| <= 0x80000;
    }
  }

  lemma OffsetsFit(s: ExifSpec)
    requires IsSpec(s)
    ensures DataOffset(s) + |DataArea(s)| < TWO32
    ensures |DataAfterPrimary(s)| <= |DataAfterExif(s)| <= |DataArea(s)|
  {
    DataIsSmall([], PrimaryEntries(s));
    DataIsSmall(DataAfterPrimary(s), ExifEntries(s));
    DataIsSmall(DataAfterExif(s), GpsEntries(s));
  }

  const TIFF_HEADER: Bytes := [73, 73, 42, 0, 8, 0, 0, 0]
  const EXIF_HEADER: Bytes := [0x45, 0x78, 0x69, 0x66, 0, 0]

  function TiffBlock(s: ExifSpec): Bytes
    requires IsSpec(s)
  {
    OffsetsFit(s);
    TIFF_HEADER + IfdBytes(PrimaryEntries(s), DataOffset(s), [])
      + (if ExifEntries(s) != [] then IfdBytes(ExifEntries(s), DataOffset(s), DataAfterPrimary(s)) else [])
      + (if s.gps.Some? then IfdBytes(GpsEntries(s), DataOffset(s), DataAfterExif(s)) else [])
      + DataArea(s)
  }

  /** The segment that carries the block; its length counts itself, in sixteen bits. */
  function App1(s: ExifSpec): Bytes
    requires IsSpec(s)
  {
    var length := |EXIF_HEADER + TiffBlock(s)| + 2;
    [0xff, 0xe1, length / 256 % 256, length % 256] + (EXIF_HEADER + TiffBlock(s))
  }

  predicate FitsOneSegment(s: ExifSpec)
    requires IsSpec(s)
  {
    |TiffBlock(s)| + 8 <= 0xffff
  }

  method BuildExifApp1(s: ExifSpec) returns (segment: Bytes)
    requires IsSpec(s)
    ensures segment == App1(s)
  {
    hide IsEntry, AsciiEntry, CoordinateEntry, IfdBytes, DataAfter, Basics;
    OffsetsFit(s);
    var primary, exif, gps := PrimaryEntries(s), ExifEntries(s), GpsEntries(s);
    var base := DataOffset(s);
    var tiff, data: Bytes := TIFF_HEADER, [];
    tiff, data := AppendIfd(tiff, primary, data, base);
    if exif != [] {
      tiff, data := AppendIfd(tiff, exif, data, base);
    } else {
      NoMoreData(data);
    }
    if s.gps.Some? {
      tiff, data := AppendIfd(tiff, gps, data, base);
    } else {
      NoMoreData(data);
    }
    tiff := tiff + data;
    assert tiff == TiffBlock(s);
    var app1 := EXIF_HEADER + tiff;
    var length := |app1| + 2;
    segment := [0xff, 0xe1, length / 256 % 256, length % 256];
    segment := segment + app1;
  }

  lemma NoMoreData(data: Bytes)
    ensures DataAfter(data, []) == data
  {
  }
}
