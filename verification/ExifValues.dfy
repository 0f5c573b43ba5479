/** What the bytes of an EXIF block mean, in either byte order, whoever wrote them. */
module ExifValues {
  import opened BigEndian
  import opened Media
  import opened Placement
  import opened TiffReader

  // ----- numbers -----

  function In16(n: nat, bigEndian: bool): (b: Bytes)
    requires n < 0x10000
    ensures |b| == 2
  {
    if bigEndian then [n / 256, n % 256] else [n % 256, n / 256]
  }

  function In32(n: nat, bigEndian: bool): (b: Bytes)
    requires n < TWO32
    ensures |b| == 4
  {
    if bigEndian then In16(n / 0x10000, true) + In16(n % 0x10000, true) else In16(n % 0x10000, false) + In16(n / 0x10000, false)
  }

  /** A number is read exactly if its bytes are there, in the order of the block. */
  lemma Number16IsReadExactlyWhen(bytes: Bytes, at: int, n: nat, bigEndian: bool)
    ensures ReadU16(bytes, at, bigEndian) == Some(n) <==> at >= 0 && n < 0x10000 && Stands(bytes, at, In16(n, bigEndian))
    ensures ReadU16(bytes, at, bigEndian).None? <==> at < 0 || at + 2 > |bytes|
  {
    if 0 <= at && at + 2 <= |bytes| {
      var first: int, second: int := bytes[at], bytes[at + 1];
      assert bytes[at..at + 2] == [bytes[at], bytes[at + 1]];
    }
  }

  lemma Number32IsReadExactlyWhen(bytes: Bytes, at: int, n: nat, bigEndian: bool)
    ensures ReadU32(bytes, at, bigEndian) == Some(n) <==> at >= 0 && n < TWO32 && Stands(bytes, at, In32(n, bigEndian))
    ensures ReadU32(bytes, at, bigEndian).None? <==> at < 0 || at + 4 > |bytes|
  {
    if 0 <= at && at + 4 <= |bytes| {
      var b0: int, b1: int, b2: int, b3: int := bytes[at], bytes[at + 1], bytes[at + 2], bytes[at + 3];
      assert bytes[at..at + 4] == [bytes[at], bytes[at + 1], bytes[at + 2], bytes[at + 3]];
      DigitsOf(b0, b1, b2, b3);
      DigitsOf(b3, b2, b1, b0);
      if n < TWO32 {
        ValueOf(n);
        Halves(n);
      }
    }
  }

  lemma Halves(n: nat)
    requires n < TWO32
    ensures n / 0x10000 / 256 == n / 0x1000000
    ensures n % 0x10000 / 256 == n / 256 % 256 && n % 0x10000 % 256 == n % 256
  {
    var high, low := n / 0x10000, n % 0x10000;
    assert n / 256 == high * 256 + low / 256;
    assert n == (high * 256 + low / 256) * 256 + low % 256;
  }

  // ----- entries -----

  /** How many bytes a value of this type has in section 2 of TIFF 6.0; 0 if it is not taken. */
  function Width(kind: nat): nat {
    match kind
    case 1 => 1   // BYTE
    case 2 => 1   // ASCII
    case 3 => 2   // SHORT
    case 4 => 4   // LONG
    case 5 => 8   // RATIONAL
    case 7 => 1   // UNDEFINED
    case 9 => 4   // SLONG
    case 10 => 8  // SRATIONAL
    case _ => 0
  }

  /**
   * An entry of twelve bytes is read with its value, which stands in the last four of them or where
   * they point to; it is skipped if its type is not taken or its value is not there.
   */
  lemma EntryIsRead(tiff: Bytes, at: nat, tag: nat, kind: nat, count: nat, offset: nat, bigEndian: bool)
    requires tag < 0x10000 && kind < 0x10000 && count < TWO32 && offset < TWO32
    requires Stands(tiff, at, In16(tag, bigEndian) + In16(kind, bigEndian) + In32(count, bigEndian) + In32(offset, bigEndian))
    ensures var size := Width(kind) * count;
      ReadEntry(tiff, at, bigEndian) ==
        if Width(kind) == 0 || size > |tiff| then Skipped
        else if size <= 4 then Read(TiffEntry(tag, kind, count, tiff[at + 8..][..size]))
        else if offset + size <= |tiff| then Read(TiffEntry(tag, kind, count, tiff[offset..][..size]))
        else Skipped
  {
    hide In16, In32, Stands, ReadU16, ReadU32;
    EntryParts(tiff, at, In16(tag, bigEndian), In16(kind, bigEndian), In32(count, bigEndian), In32(offset, bigEndian));
    Number16IsReadExactlyWhen(tiff, at, tag, bigEndian);
    Number16IsReadExactlyWhen(tiff, at + 2, kind, bigEndian);
    Number32IsReadExactlyWhen(tiff, at + 4, count, bigEndian);
    Number32IsReadExactlyWhen(tiff, at + 8, offset, bigEndian);
    WidthIs(kind);
    assert at + 12 <= |tiff|;
  }

  lemma WidthIs(kind: nat)
    ensures SizeOfType(kind) == Width(kind)
  {
  }

  lemma EntryParts(tiff: Bytes, at: nat, a: Bytes, b: Bytes, c: Bytes, d: Bytes)
    requires |a| == 2 && |b| == 2 && |c| == 4 && |d| == 4 && Stands(tiff, at, a + b + c + d)
    ensures Stands(tiff, at, a) && Stands(tiff, at + 2, b) && Stands(tiff, at + 4, c) && Stands(tiff, at + 8, d) && at + 12 <= |tiff|
  {
    hide Stands;
    assert a + b + c + d + [] == a + b + c + d;
    StandsInside(tiff, at, a + b, c, d);
    assert a + b + [] == a + b;
    StandsInside(tiff, at, a, b, []);
    assert at + 12 <= |tiff| by { StandsFits(tiff, at, a + b + c + d); }
  }

  lemma StandsFits(bytes: Bytes, at: nat, part: Bytes)
    requires Stands(bytes, at, part)
    ensures at + |part| <= |bytes|
  {
  }

  /** Only an entry that is cut off is unreadable. */
  lemma EntryIsUnreadableExactlyWhen(tiff: Bytes, at: nat, bigEndian: bool)
    ensures ReadEntry(tiff, at, bigEndian) == Unreadable <==> at + 12 > |tiff|
  {
  }

  /** A directory is read to its end exactly if it has at most 512 entries and none of them is cut off. */
  lemma {:induction false} EntriesAreReadExactlyWhen(tiff: Bytes, at: nat, n: nat, bigEndian: bool)
    ensures ReadEntries(tiff, at, n, bigEndian).ok <==> n == 0 || at + 12 * n <= |tiff|
    decreases n
  {
    hide ReadEntry;
    if n > 0 {
      EntryIsUnreadableExactlyWhen(tiff, at, bigEndian);
      EntriesAreReadExactlyWhen(tiff, at + 12, n - 1, bigEndian);
    }
  }

  lemma DirectoryIsReadExactlyWhen(tiff: Bytes, offset: nat, n: nat, bigEndian: bool)
    requires n < 0x10000 && Stands(tiff, offset, In16(n, bigEndian))
    ensures Ifd(tiff, offset, bigEndian).ok <==> n <= 512 && offset + 2 + 12 * n <= |tiff|
    ensures n > 512 ==> Ifd(tiff, offset, bigEndian).entries == []
  {
    hide In16, ReadU16, ReadEntries;
    Number16IsReadExactlyWhen(tiff, offset, n, bigEndian);
    EntriesAreReadExactlyWhen(tiff, offset + 2, n, bigEndian);
    StandsFits(tiff, offset, In16(n, bigEndian));
  }

  // ----- values -----

  /** White space of Latin-1. */
  predicate Blank(text: Bytes) {
    forall i | 0 <= i < |text| :: text[i] in {9, 10, 11, 12, 13, 32, 0x85, 0xa0}
  }

  /** Text that is neither empty nor starts or ends with a blank, and has no NUL. */
  predicate IsBare(text: Bytes) {
    && (forall i | 0 <= i < |text| :: text[i] != 0)
    && (text != [] ==> !Blank(text[..1]) && !Blank(text[|text| - 1..]))
  }

  /** A text ends before the first NUL, and blanks around it do not belong to it. */
  lemma TextIsRead(e: TiffEntry, left: Bytes, text: Bytes, right: Bytes, rest: Bytes)
    requires e.value == left + text + right + rest && (rest == [] || rest[0] == 0)
    requires Blank(left) && IsBare(text) && Blank(right)
    ensures AsciiValue(e) == if e.kind == 2 then text else []
  {
    hide IsSpace, Blank;
    var whole := left + text + right;
    BlankHasNoNul(left);
    BlankHasNoNul(right);
    NulEnds(whole, rest);
    if text == [] {
      BothBlank(left, right);
      assert whole == left + right + [];
      BlanksGo(left + right, []);
    } else {
      NoBlankFirst(text + right, text);
      assert whole == left + (text + right);
      BlanksGo(left, text + right);
      BlanksGoBehind(text, right);
    }
  }

  lemma BothBlank(a: Bytes, b: Bytes)
    requires Blank(a) && Blank(b)
    ensures Blank(a + b)
  {
  }

  lemma BlankHasNoNul(text: Bytes)
    requires Blank(text)
    ensures forall i | 0 <= i < |text| :: text[i] != 0
  {
  }

  lemma {:induction false} NulEnds(text: Bytes, rest: Bytes)
    requires (forall i | 0 <= i < |text| :: text[i] != 0) && (rest == [] || rest[0] == 0)
    ensures UpToNul(text + rest) == text
  {
    if text == [] {
      assert [] + rest == rest;
    } else {
      assert (text + rest)[1..] == text[1..] + rest;
      NulEnds(text[1..], rest);
    }
  }

  lemma SpaceIs(b: Byte)
    ensures IsSpace(b) <==> Blank([b])
  {
    assert [b][0] == b;
  }

  lemma FirstBlank(text: Bytes)
    requires text != []
    ensures text[..1] == [text[0]] && text[|text| - 1..] == [text[|text| - 1]]
    ensures Blank(text) ==> Blank([text[0]]) && Blank(text[1..]) && Blank([text[|text| - 1]]) && Blank(text[..|text| - 1])
  {
  }

  lemma {:induction false} BlanksGo(blanks: Bytes, text: Bytes)
    requires Blank(blanks) && (text == [] || !Blank([text[0]]))
    ensures TrimmedLeft(blanks + text) == text
  {
    hide Blank, IsSpace;
    if blanks == [] {
      assert [] + text == text;
      if text != [] { SpaceIs(text[0]); }
    } else {
      FirstBlank(blanks);
      SpaceIs(blanks[0]);
      assert (blanks + text)[1..] == blanks[1..] + text;
      BlanksGo(blanks[1..], text);
    }
  }

  lemma NoBlankFirst(whole: Bytes, text: Bytes)
    requires text != [] && text <= whole && IsBare(text)
    ensures !Blank([whole[0]]) && TrimmedLeft(whole) == whole && !Blank([text[|text| - 1]])
  {
    FirstBlank(text);
    SpaceIs(whole[0]);
  }

  lemma {:induction false} BlanksGoBehind(text: Bytes, blanks: Bytes)
    requires text != [] && Blank(blanks) && !Blank([text[|text| - 1]])
    ensures TrimmedRight(text + blanks) == text
    decreases |blanks|
  {
    hide Blank, IsSpace;
    var whole := text + blanks;
    if blanks == [] {
      assert whole == text;
      SpaceIs(text[|text| - 1]);
    } else {
      FirstBlank(blanks);
      SpaceIs(blanks[|blanks| - 1]);
      assert whole[..|whole| - 1] == text + blanks[..|blanks| - 1];
      BlanksGoBehind(text, blanks[..|blanks| - 1]);
    }
  }

  /** An integer is a SHORT, a LONG with or without sign, or a BYTE; it is the first of its values. */
  lemma IntegerIsReadExactlyWhen(e: TiffEntry, n: nat, bigEndian: bool)
    ensures IntegerValue(e, bigEndian) == Some(n) <==>
      || (e.kind == 3 && n < 0x10000 && Stands(e.value, 0, In16(n, bigEndian)))
      || (e.kind in {4, 9} && n < TWO32 && Stands(e.value, 0, In32(n, bigEndian)))
      || (e.kind == 1 && e.value != [] && e.value[0] == n)
  {
    hide In16, In32, Stands, ReadU16, ReadU32;
    Number16IsReadExactlyWhen(e.value, 0, n, bigEndian);
    Number32IsReadExactlyWhen(e.value, 0, n, bigEndian);
  }

  /** The rational with this index: a numerator over a denominator that is not zero. */
  lemma RationalIsRead(e: TiffEntry, index: nat, numerator: nat, denominator: nat, bigEndian: bool)
    requires numerator < TWO32 && denominator < TWO32
    requires Stands(e.value, 8 * index, In32(numerator, bigEndian) + In32(denominator, bigEndian))
    ensures RationalAt(e, index, bigEndian) ==
      if e.kind in {5, 10} && denominator != 0 then Some(numerator as real / denominator as real) else None
  {
    hide In32, Stands, ReadU32;
    var both := In32(numerator, bigEndian) + In32(denominator, bigEndian);
    assert both + [] == both;
    StandsInside(e.value, 8 * index, In32(numerator, bigEndian), In32(denominator, bigEndian), []);
    Number32IsReadExactlyWhen(e.value, 8 * index, numerator, bigEndian);
    Number32IsReadExactlyWhen(e.value, 8 * index + 4, denominator, bigEndian);
  }

  lemma CutRationalIsNotRead(e: TiffEntry, index: nat, bigEndian: bool)
    ensures 8 * index + 8 > |e.value| ==> RationalAt(e, index, bigEndian) == None
  {
    hide ReadU32;
    Number32IsReadExactlyWhen(e.value, 8 * index + 4, 0, bigEndian);
  }

  /** Degrees, minutes and seconds: all three of at least three values. */
  lemma CoordinateIsReadExactlyWhen(e: TiffEntry, bigEndian: bool)
    ensures CoordinateFrom(e, bigEndian).Some? <==>
      e.count >= 3 && forall index: nat | index < 3 :: RationalAt(e, index, bigEndian).Some?
    ensures CoordinateFrom(e, bigEndian).Some? ==>
      3600.0 * CoordinateFrom(e, bigEndian).value ==
        3600.0 * RationalAt(e, 0, bigEndian).value + 60.0 * RationalAt(e, 1, bigEndian).value + RationalAt(e, 2, bigEndian).value
  {
    hide RationalAt;
    assert RationalAt(e, 0, bigEndian).Some? && RationalAt(e, 1, bigEndian).Some? && RationalAt(e, 2, bigEndian).Some? <==>
           forall index: nat | index < 3 :: RationalAt(e, index, bigEndian).Some?;
  }

  /** Orientations 3 and 4 are upside down, 5 and 6 lie on one side and 7 and 8 on the other; all others are upright. */
  lemma RotationIs(orientation: nat)
    ensures Rotation(orientation) == if orientation <= 8 then [0, 0, 0, 180, 180, 90, 90, 270, 270][orientation] else 0
  {
  }

  /** Two decimal digits. */
  function Digits(n: nat): (b: Bytes)
    requires n < 100
    ensures |b| == 2
  {
    [48 + n / 10, 48 + n % 10]
  }

  const PLUS: Byte := 43
  const MINUS: Byte := 45

  /** A sign, two digits of hours up to 23, a separator, two digits of minutes up to 59, and whatever follows. */
  ghost predicate IsOffset(text: Bytes, hours: nat, minutes: nat) {
    && hours <= 23 && minutes <= 59 && |text| >= 6 && text[0] in {PLUS, MINUS}
    && text[1..3] == Digits(hours) && text[4..6] == Digits(minutes)
  }

  lemma OffsetIsReadExactlyWhen(text: Bytes)
    ensures OffsetSeconds(text).Some? <==> exists hours: nat, minutes: nat :: IsOffset(text, hours, minutes)
    ensures forall hours: nat, minutes: nat | IsOffset(text, hours, minutes) ::
      OffsetSeconds(text) == Some(if text[0] == MINUS then -(3600 * hours + 60 * minutes) else 3600 * hours + 60 * minutes)
  {
    hide TwoDigits;
    if |text| >= 6 {
      DigitsAreRead(text[1], text[2]);
      DigitsAreRead(text[4], text[5]);
      assert text[1..3] == [text[1], text[2]] && text[4..6] == [text[4], text[5]];
      if OffsetSeconds(text).Some? {
        assert IsOffset(text, TwoDigits(text[1], text[2]).value, TwoDigits(text[4], text[5]).value);
      }
    }
  }

  lemma DigitsAreRead(tens: Byte, ones: Byte)
    ensures forall n: nat | n < 100 :: TwoDigits(tens, ones) == Some(n) <==> Digits(n) == [tens, ones]
    ensures TwoDigits(tens, ones).Some? ==> 0 <= TwoDigits(tens, ones).value < 100
  {
    forall n: nat | n < 100 ensures TwoDigits(tens, ones) == Some(n) <==> Digits(n) == [tens, ones] {
      var t: int, o: int := tens, ones;
      if Digits(n) == [tens, ones] {
        assert tens == 48 + n / 10 && ones == 48 + n % 10;
      }
    }
  }

  // ----- a whole block -----

  /** The first entry with this tag is the one that counts. */
  ghost predicate IsFirstWith(entries: seq<TiffEntry>, tag: nat, e: TiffEntry) {
    exists i: nat :: i < |entries| && entries[i] == e && e.tag == tag && forall j: nat | j < i :: entries[j].tag != tag
  }

  lemma {:induction false} FoundIsFirst(entries: seq<TiffEntry>, tag: nat)
    ensures Find(entries, tag).None? <==> forall i | 0 <= i < |entries| :: entries[i].tag != tag
    ensures forall e :: Find(entries, tag) == Some(e) <==> IsFirstWith(entries, tag, e)
  {
    if entries != [] {
      FoundIsFirst(entries[1..], tag);
      if entries[0].tag != tag {
        forall e ensures IsFirstWith(entries, tag, e) <==> IsFirstWith(entries[1..], tag, e) {
          FirstFurther(entries, tag, e);
        }
      }
    }
  }

  lemma FirstFurther(entries: seq<TiffEntry>, tag: nat, e: TiffEntry)
    requires entries != [] && entries[0].tag != tag
    ensures IsFirstWith(entries, tag, e) <==> IsFirstWith(entries[1..], tag, e)
  {
    var rest := entries[1..];
    if i: nat :| i < |entries| && entries[i] == e && e.tag == tag && forall j: nat | j < i :: entries[j].tag != tag {
      assert rest[i - 1] == e;
      assert forall j: nat | j < i - 1 :: rest[j] == entries[j + 1];
    }
    if i: nat :| i < |rest| && rest[i] == e && e.tag == tag && forall j: nat | j < i :: rest[j].tag != tag {
      assert entries[i + 1] == e;
      assert forall j: nat | j < i + 1 :: j == 0 || entries[j] == rest[j - 1];
    }
  }

  /** A text that is not empty, under this tag. */
  ghost predicate SaysText(entries: seq<TiffEntry>, tag: nat, text: Bytes) {
    text != [] && exists e :: IsFirstWith(entries, tag, e) && AsciiValue(e) == text
  }

  ghost predicate SaysNumber(entries: seq<TiffEntry>, tag: nat, n: nat, bigEndian: bool) {
    exists e :: IsFirstWith(entries, tag, e) && IntegerValue(e, bigEndian) == Some(n)
  }

  /** A text that is a date, and not the placeholder whose year is four zeros. */
  ghost predicate SaysTime(entries: seq<TiffEntry>, tag: nat, text: Bytes, isDate: Bytes -> bool) {
    SaysText(entries, tag, text) && !([48, 48, 48, 48] <= text) && isDate(text)
  }

  ghost predicate SaysOffset(entries: seq<TiffEntry>, tag: nat, seconds: int) {
    exists e :: IsFirstWith(entries, tag, e) && OffsetSeconds(AsciiValue(e)) == Some(seconds)
  }

  lemma TextsAreThose(entries: seq<TiffEntry>, tag: nat, isDate: Bytes -> bool)
    ensures forall text :: TextOf(entries, tag) == Some(text) <==> SaysText(entries, tag, text)
    ensures forall text :: TimeOf(entries, tag, isDate) == Some(text) <==> SaysTime(entries, tag, text, isDate)
    ensures forall seconds :: OffsetOf(entries, tag) == Some(seconds) <==> SaysOffset(entries, tag, seconds)
    ensures forall n: nat, bigEndian :: NumberOf(entries, tag, bigEndian) == Some(n) <==> SaysNumber(entries, tag, n, bigEndian)
  {
    hide Find, AsciiValue, OffsetSeconds, IntegerValue, IsFirstWith;
    FoundIsFirst(entries, tag);
  }

  /** The original time wins over that of the last change; a time has the original's offset, or else the general one. */
  lemma CaptureIs(ifd0: seq<TiffEntry>, exif: seq<TiffEntry>, isDate: Bytes -> bool)
    ensures var capture := CaptureOf(ifd0, exif, isDate);
      && (capture.Some? <==> exists text :: SaysTime(exif, 0x9003, text, isDate) || SaysTime(ifd0, 0x0132, text, isDate))
      && (capture.Some? ==>
            && (forall text | SaysTime(exif, 0x9003, text, isDate) :: capture.value.text == text)
            && ((forall text :: !SaysTime(exif, 0x9003, text, isDate)) ==> SaysTime(ifd0, 0x0132, capture.value.text, isDate))
            && (forall seconds | SaysOffset(exif, 0x9011, seconds) :: capture.value.offset == Some(seconds))
            && ((forall seconds :: !SaysOffset(exif, 0x9011, seconds)) ==>
                  forall seconds :: capture.value.offset == Some(seconds) <==> SaysOffset(exif, 0x9010, seconds)))
  {
    hide TimeOf, OffsetOf, SaysTime, SaysOffset;
    TextsAreThose(exif, 0x9003, isDate);
    TextsAreThose(ifd0, 0x0132, isDate);
    TextsAreThose(exif, 0x9011, isDate);
    TextsAreThose(exif, 0x9010, isDate);
    assert OffsetOf(exif, 0x9011).Some? ==> SaysOffset(exif, 0x9011, OffsetOf(exif, 0x9011).value);
  }

  /** A text under this tag starts with this letter. */
  ghost predicate SaysLetter(entries: seq<TiffEntry>, tag: nat, letter: Byte) {
    exists e :: IsFirstWith(entries, tag, e) && AsciiValue(e) != [] && AsciiValue(e)[0] == letter
  }

  ghost predicate SaysAngle(gps: seq<TiffEntry>, tag: nat, angle: real, bigEndian: bool) {
    exists e :: IsFirstWith(gps, tag, e) && CoordinateFrom(e, bigEndian) == Some(angle)
  }

  ghost predicate SaysHeight(gps: seq<TiffEntry>, metres: real, bigEndian: bool) {
    exists e :: IsFirstWith(gps, 6, e) && RationalAt(e, 0, bigEndian) == Some(metres)
  }

  /** Both angles, negative in the south and in the west, and no further than a pole or half around. */
  ghost predicate IsPlace(gps: seq<TiffEntry>, latitude: real, longitude: real, bigEndian: bool) {
    && -90.0 <= latitude <= 90.0 && -180.0 <= longitude <= 180.0
    && SaysAngle(gps, 2, if SaysLetter(gps, 1, 83) then -latitude else latitude, bigEndian)
    && SaysAngle(gps, 4, if SaysLetter(gps, 3, 87) then -longitude else longitude, bigEndian)
  }

  lemma LettersAreThose(gps: seq<TiffEntry>, tag: nat, letter: Byte, value: real)
    ensures Signed(value, Find(gps, tag), letter) == if SaysLetter(gps, tag, letter) then -value else value
  {
    hide Find, AsciiValue, IsFirstWith;
    FoundIsFirst(gps, tag);
    if Find(gps, tag).Some? { assert IsFirstWith(gps, tag, Find(gps, tag).value); }
  }

  lemma AnglesAreThose(gps: seq<TiffEntry>, tag: nat, bigEndian: bool)
    ensures forall angle :: SaysAngle(gps, tag, angle, bigEndian) <==>
      Find(gps, tag).Some? && CoordinateFrom(Find(gps, tag).value, bigEndian) == Some(angle)
  {
    hide Find, CoordinateFrom, IsFirstWith;
    FoundIsFirst(gps, tag);
  }

  /** A location is found exactly if the directory says a place. */
  lemma LocationIsFoundExactlyWhen(gps: seq<TiffEntry>, bigEndian: bool)
    ensures forall latitude, longitude ::
      (LocationOf(gps, bigEndian).Some? && LocationOf(gps, bigEndian).value.latitude == latitude && LocationOf(gps, bigEndian).value.longitude == longitude)
        <==> IsPlace(gps, latitude, longitude, bigEndian)
    ensures LocationOf(gps, bigEndian).Some? ==> LocationOf(gps, bigEndian).value.altitude == AltitudeOf(gps, bigEndian)
  {
    hide Find, CoordinateFrom, Signed, SaysAngle, SaysLetter, AltitudeOf;
    AnglesAreThose(gps, 2, bigEndian);
    AnglesAreThose(gps, 4, bigEndian);
    forall value: real
      ensures Signed(value, Find(gps, 1), SOUTH) == if SaysLetter(gps, 1, 83) then -value else value
      ensures Signed(value, Find(gps, 3), WEST) == if SaysLetter(gps, 3, 87) then -value else value
    {
      LettersAreThose(gps, 1, SOUTH, value);
      LettersAreThose(gps, 3, WEST, value);
    }
  }

  /** An altitude counts downwards from sea level if its reference is 1. */
  lemma AltitudeIsFoundExactlyWhen(gps: seq<TiffEntry>, bigEndian: bool)
    ensures forall metres :: AltitudeOf(gps, bigEndian) == Some(metres) <==>
      SaysHeight(gps, if SaysNumber(gps, 5, 1, bigEndian) then -metres else metres, bigEndian)
  {
    hide Find, RationalAt, IntegerValue, IsFirstWith;
    FoundIsFirst(gps, 6);
    FoundIsFirst(gps, 5);
  }

  /** A block starts with its byte order, the number 42 in that order, and the place of its primary directory. */
  ghost predicate IsHeader(tiff: Bytes, bigEndian: bool, first: nat) {
    && first < TWO32
    && Stands(tiff, 0, (if bigEndian then [77, 77] else [73, 73]) + In16(42, bigEndian) + In32(first, bigEndian))
  }

  /** The directory that a number under this tag points to, as far as it can be read. */
  ghost predicate IsSubDirectory(tiff: Bytes, ifd0: seq<TiffEntry>, tag: nat, bigEndian: bool, entries: seq<TiffEntry>) {
    && (forall n: nat | SaysNumber(ifd0, tag, n, bigEndian) :: entries == Ifd(tiff, n, bigEndian).entries)
    && ((forall n: nat :: !SaysNumber(ifd0, tag, n, bigEndian)) ==> entries == [])
  }

  /** The packet that is embedded in the primary directory, or one that says nothing. */
  ghost predicate IsPacket(ifd0: seq<TiffEntry>, parsers: Parsers, packet: Packet) {
    if exists e :: IsFirstWith(ifd0, 0x02bc, e) && parsers.xmp(e.value).Some?
    then exists e :: IsFirstWith(ifd0, 0x02bc, e) && parsers.xmp(e.value) == Some(packet)
    else packet == Packet(None, None, None, None)
  }

  /** Which entry each field comes from; what the embedded packet says wins. */
  ghost predicate SaysFields(ifd0: seq<TiffEntry>, exif: seq<TiffEntry>, gps: seq<TiffEntry>, bigEndian: bool,
                             parsers: Parsers, packet: Packet, fields: ExifFields) {
    && (forall text :: fields.make == Some(text) <==> SaysText(ifd0, 0x010f, text))
    && (forall text :: fields.model == Some(text) <==> SaysText(ifd0, 0x0110, text))
    && (forall text :: fields.lens == Some(text) <==> SaysText(exif, 0xa434, text))
    && (forall n: nat | SaysNumber(ifd0, 0x0112, n, bigEndian) :: fields.rotation == Some(Rotation(n)))
    && ((forall n: nat :: !SaysNumber(ifd0, 0x0112, n, bigEndian)) ==> fields.rotation == None)
    && SaysLength(exif, 0xa002, bigEndian, fields.width) && SaysLength(exif, 0xa003, bigEndian, fields.height)
    && fields.location == LocationOf(gps, bigEndian)
    && fields.capture == (if packet.capture.Some? then packet.capture else CaptureOf(ifd0, exif, parsers.isDate))
    && fields.caption == packet.caption && fields.rating == packet.rating && fields.tags == packet.tags
  }

  /** A number of pixels that is not zero, stored with 32 bits and a sign. */
  ghost predicate SaysLength(exif: seq<TiffEntry>, tag: nat, bigEndian: bool, length: Option<int>) {
    && (forall n: nat | SaysNumber(exif, tag, n, bigEndian) && n > 0 :: length == Some(if n < 0x8000_0000 then n else n - TWO32))
    && ((forall n: nat :: !(SaysNumber(exif, tag, n, bigEndian) && n > 0)) ==> length == None)
  }

  /** A block is read exactly if its header and its primary directory are whole. */
  lemma BlockIsReadExactlyWhen(tiff: Bytes, parsers: Parsers)
    ensures BlockFields(tiff, parsers).Some? <==> exists bigEndian, first: nat :: IsHeader(tiff, bigEndian, first) && Ifd(tiff, first, bigEndian).ok
  {
    hide Ifd, ReadU16, ReadU32, IsHeader, LocationOf, CaptureOf;
    if |tiff| >= 2 {
      var bigEndian := tiff[..2] == [77, 77];
      Number32IsReadExactlyWhen(tiff, 4, 0, bigEndian);
      if |tiff| >= 8 { HeaderIs(tiff, bigEndian, ReadU32(tiff, 4, bigEndian).value); }
    }
    forall bigEndian, first: nat | IsHeader(tiff, bigEndian, first)
      ensures |tiff| >= 8 && tiff[..2] == (if bigEndian then [77, 77] else [73, 73])
      ensures ReadU16(tiff, 2, bigEndian) == Some(42) && ReadU32(tiff, 4, bigEndian) == Some(first)
    {
      HeaderIs(tiff, bigEndian, first);
    }
  }

  lemma HeaderIs(tiff: Bytes, bigEndian: bool, first: nat)
    ensures IsHeader(tiff, bigEndian, first) <==>
      && |tiff| >= 8 && tiff[..2] == (if bigEndian then [77, 77] else [73, 73])
      && ReadU16(tiff, 2, bigEndian) == Some(42) && ReadU32(tiff, 4, bigEndian) == Some(first)
    ensures |tiff| >= 8 ==> ReadU32(tiff, 4, bigEndian).Some?
  {
    hide In16, In32, ReadU16, ReadU32;
    Number16IsReadExactlyWhen(tiff, 2, 42, bigEndian);
    Number32IsReadExactlyWhen(tiff, 4, first, bigEndian);
    if first < TWO32 {
      var order := if bigEndian then [77, 77] else [73, 73];
      ThreeParts(tiff, order, In16(42, bigEndian), In32(first, bigEndian));
    }
  }

  lemma ThreeParts(bytes: Bytes, a: Bytes, b: Bytes, c: Bytes)
    requires |a| == 2 && |b| == 2 && |c| == 4
    ensures Stands(bytes, 0, a + b + c) <==> Stands(bytes, 0, a) && Stands(bytes, 2, b) && Stands(bytes, 4, c)
    ensures Stands(bytes, 0, a) <==> |bytes| >= 2 && bytes[..2] == a
    ensures Stands(bytes, 4, c) ==> |bytes| >= 8
  {
    if Stands(bytes, 0, a + b + c) {
      StandsInside(bytes, 0, a, b, c);
    }
    if Stands(bytes, 0, a) && Stands(bytes, 2, b) && Stands(bytes, 4, c) {
      assert bytes[0..8] == bytes[0..2] + bytes[2..4] + bytes[4..8];
    }
  }

  /** The fields of three directories without a packet. */
  function Unpacked(ifd0: seq<TiffEntry>, exif: seq<TiffEntry>, gps: seq<TiffEntry>, bigEndian: bool, isDate: Bytes -> bool): ExifFields {
    var orientation := NumberOf(ifd0, 0x0112, bigEndian);
    ExifFields(TextOf(ifd0, 0x010f), TextOf(ifd0, 0x0110), TextOf(exif, 0xa434),
               if orientation.None? then None else Some(Rotation(orientation.value)),
               Positive(NumberOf(exif, 0xa002, bigEndian)), Positive(NumberOf(exif, 0xa003, bigEndian)),
               CaptureOf(ifd0, exif, isDate), LocationOf(gps, bigEndian), None, None, None)
  }

  lemma BlockIsUnpacked(tiff: Bytes, parsers: Parsers, bigEndian: bool, first: nat)
    requires IsHeader(tiff, bigEndian, first) && Ifd(tiff, first, bigEndian).ok
    ensures var ifd0 := Ifd(tiff, first, bigEndian).entries;
      BlockFields(tiff, parsers) == Some(WithXmp(Unpacked(ifd0, SubDirectory(tiff, ifd0, 0x8769, bigEndian), SubDirectory(tiff, ifd0, 0x8825, bigEndian),
                                                          bigEndian, parsers.isDate), EmbeddedPacket(ifd0, parsers.xmp)))
  {
    hide Ifd, ReadU16, ReadU32, IsHeader, LocationOf, CaptureOf, TextOf, NumberOf, Positive, EmbeddedPacket, SubDirectory, Rotation, WithXmp;
    HeaderIs(tiff, bigEndian, first);
  }

  lemma UnpackedSays(ifd0: seq<TiffEntry>, exif: seq<TiffEntry>, gps: seq<TiffEntry>, bigEndian: bool, parsers: Parsers, packet: Packet)
    requires IsPacket(ifd0, parsers, packet)
    ensures SaysFields(ifd0, exif, gps, bigEndian, parsers, packet, WithPacket(Unpacked(ifd0, exif, gps, bigEndian, parsers.isDate), packet))
  {
    hide LocationOf, CaptureOf, TextOf, NumberOf, Positive, SaysText, SaysNumber, SaysLength, IsPacket, Rotation, Find;
    TextsAreThose(ifd0, 0x010f, parsers.isDate);
    TextsAreThose(ifd0, 0x0110, parsers.isDate);
    TextsAreThose(exif, 0xa434, parsers.isDate);
    TextsAreThose(ifd0, 0x0112, parsers.isDate);
    LengthIs(exif, 0xa002, bigEndian);
    LengthIs(exif, 0xa003, bigEndian);
    var turned := NumberOf(ifd0, 0x0112, bigEndian);
    assert turned.Some? ==> SaysNumber(ifd0, 0x0112, turned.value, bigEndian);
  }

  /** What is read from a block is what its entries say. */
  lemma BlockSays(tiff: Bytes, parsers: Parsers, bigEndian: bool, first: nat, exif: seq<TiffEntry>, gps: seq<TiffEntry>, packet: Packet)
    requires IsHeader(tiff, bigEndian, first) && Ifd(tiff, first, bigEndian).ok
    requires IsSubDirectory(tiff, Ifd(tiff, first, bigEndian).entries, 0x8769, bigEndian, exif)
    requires IsSubDirectory(tiff, Ifd(tiff, first, bigEndian).entries, 0x8825, bigEndian, gps)
    requires IsPacket(Ifd(tiff, first, bigEndian).entries, parsers, packet)
    ensures BlockFields(tiff, parsers).Some?
    ensures SaysFields(Ifd(tiff, first, bigEndian).entries, exif, gps, bigEndian, parsers, packet, BlockFields(tiff, parsers).value)
  {
    hide *;
    var ifd0 := Ifd(tiff, first, bigEndian).entries;
    BlockIsUnpacked(tiff, parsers, bigEndian, first);
    SubDirectoryIs(tiff, ifd0, 0x8769, bigEndian, exif);
    SubDirectoryIs(tiff, ifd0, 0x8825, bigEndian, gps);
    PacketIs(ifd0, parsers, packet);
    UnpackedSays(ifd0, exif, gps, bigEndian, parsers, packet);
  }

  lemma SubDirectoryIs(tiff: Bytes, ifd0: seq<TiffEntry>, tag: nat, bigEndian: bool, entries: seq<TiffEntry>)
    requires IsSubDirectory(tiff, ifd0, tag, bigEndian, entries)
    ensures SubDirectory(tiff, ifd0, tag, bigEndian) == entries
  {
    hide NumberOf, SaysNumber, Ifd;
    TextsAreThose(ifd0, tag, _ => true);
    var pointer := NumberOf(ifd0, tag, bigEndian);
    assert pointer.Some? ==> SaysNumber(ifd0, tag, pointer.value, bigEndian);
  }

  lemma PacketIs(ifd0: seq<TiffEntry>, parsers: Parsers, packet: Packet)
    requires IsPacket(ifd0, parsers, packet)
    ensures forall fields :: WithXmp(fields, EmbeddedPacket(ifd0, parsers.xmp)) == WithPacket(fields, packet)
  {
    hide Find, IsFirstWith;
    FoundIsFirst(ifd0, 0x02bc);
  }

  lemma LengthIs(exif: seq<TiffEntry>, tag: nat, bigEndian: bool)
    ensures SaysLength(exif, tag, bigEndian, Positive(NumberOf(exif, tag, bigEndian)))
  {
    hide NumberOf, SaysNumber;
    TextsAreThose(exif, tag, _ => true);
    var n := NumberOf(exif, tag, bigEndian);
    assert n.Some? ==> SaysNumber(exif, tag, n.value, bigEndian);
  }
}
