/** What the bytes of a JPEG file mean: which ones make up a segment, and what a segment says. */
module JpegSegments {
  import opened JpegReader
  import opened Media
  import opened TiffReader

  // ----- markers -----

  /** Frame headers, as table B.1 of ITU-T T.81 lists them: without the markers of tables, of arithmetic coding and of extensions. */
  lemma FrameMarkers(marker: Byte)
    ensures IsFrame(marker) <==>
      marker in {0xc0, 0xc1, 0xc2, 0xc3, 0xc5, 0xc6, 0xc7, 0xc9, 0xca, 0xcb, 0xcd, 0xce, 0xcf}
  {
  }

  /** Markers without a segment. */
  lemma StandaloneMarkers(marker: Byte)
    ensures IsStandalone(marker) <==> marker in {0x01, 0xd0, 0xd1, 0xd2, 0xd3, 0xd4, 0xd5, 0xd6, 0xd7, 0xd8}
  {
  }

  const END_OF_IMAGE: Byte := 0xd9
  const START_OF_SCAN: Byte := 0xda

  /** A marker that a segment follows. */
  predicate HasSegment(marker: Byte) {
    marker !in {0x01, 0xd0, 0xd1, 0xd2, 0xd3, 0xd4, 0xd5, 0xd6, 0xd7, 0xd8, END_OF_IMAGE, START_OF_SCAN, 0xff}
  }

  // ----- steps -----

  /** At least one byte 0xFF, and the marker. */
  function Marked(padding: nat, marker: Byte): (b: Bytes)
    ensures |b| == padding + 2
  {
    if padding == 0 then [0xff, marker] else [0xff] + Marked(padding - 1, marker)
  }

  /** The length counts its own two bytes. */
  function Sized(payload: Bytes): (b: Bytes)
    requires |payload| + 2 < 0x10000
    ensures |b| == |payload| + 2
  {
    [(|payload| + 2) / 256, (|payload| + 2) % 256] + payload
  }

  lemma {:induction false} MarkedIs(padding: nat, marker: Byte, rest: Bytes)
    requires marker != 0xff
    ensures var d := Marked(padding, marker) + rest;
      Padding(d) == padding && d[0] == 0xff && d[padding + 1] == marker && d[padding + 2..] == rest
  {
    var d := Marked(padding, marker) + rest;
    if padding > 0 {
      MarkedIs(padding - 1, marker, rest);
      assert d[1..] == Marked(padding - 1, marker) + rest;
      assert d[padding + 2..] == d[1..][padding + 1..];
    }
  }

  lemma OneMoreByte(first: Byte, a: Bytes, b: Bytes)
    ensures [first] + (a + b) == [first] + a + b
  {
  }

  /** Every marker but the last is padding. */
  lemma {:induction false} PaddingIsMarked(d: Bytes)
    requires |d| >= 2 && d[0] == 0xff && Padding(d) + 1 < |d|
    ensures var p := Padding(d); d[p + 1] != 0xff && d == Marked(p, d[p + 1]) + d[p + 2..]
  {
    var tail := d[1..];
    if d[1] == 0xff {
      var p := Padding(tail);
      assert Padding(d) == p + 1;
      PaddingIsMarked(tail);
      assert tail[p + 1] == d[p + 2] && tail[p + 2..] == d[p + 3..];
      OneMoreByte(0xff, Marked(p, tail[p + 1]), tail[p + 2..]);
      assert d == [0xff] + tail;
    } else {
      assert d == [0xff, d[1]] + d[2..];
    }
  }

  /** A whole segment is taken as it was written. */
  lemma SegmentIsTaken(padding: nat, marker: Byte, payload: Bytes, rest: Bytes)
    requires HasSegment(marker) && |payload| + 2 < 0x10000
    ensures FirstStep(Marked(padding, marker) + Sized(payload) + rest) == Segment(marker, payload, rest)
  {
    hide Padding, IsStandalone;
    StandaloneMarkers(marker);
    var body := Sized(payload) + rest;
    assert Marked(padding, marker) + Sized(payload) + rest == Marked(padding, marker) + body;
    MarkedIs(padding, marker, body);
    LengthIsRead(|payload| + 2);
    assert body[2..|payload| + 2] == payload && body[|payload| + 2..] == rest;
  }

  lemma LengthIsRead(n: nat)
    requires n < 0x10000
    ensures Big16(n / 256, n % 256) == n
  {
  }

  /** What is taken as a segment is a whole one. */
  lemma TakenIsASegment(d: Bytes) returns (padding: nat)
    requires FirstStep(d).Segment?
    ensures HasSegment(FirstStep(d).marker) && |FirstStep(d).payload| + 2 < 0x10000
    ensures d == Marked(padding, FirstStep(d).marker) + Sized(FirstStep(d).payload) + FirstStep(d).rest
  {
    hide Padding, IsStandalone;
    padding := Padding(d);
    PaddingIsMarked(d);
    StandaloneMarkers(d[padding + 1]);
    var body := d[padding + 2..];
    var b0: int, b1: int := body[0], body[1];
    assert (b0 * 256 + b1) / 256 == b0 && (b0 * 256 + b1) % 256 == b1;
    var length := Big16(body[0], body[1]);
    assert body == body[..2] + body[2..length] + body[length..];
    assert Sized(body[2..length]) == body[..2] + body[2..length];
  }

  /** A marker without a segment is passed over, however much padding is before it, and nothing else is. */
  lemma StandaloneIsTaken(padding: nat, marker: Byte, rest: Bytes)
    requires marker in {0x01, 0xd0, 0xd1, 0xd2, 0xd3, 0xd4, 0xd5, 0xd6, 0xd7, 0xd8}
    ensures FirstStep(Marked(padding, marker) + rest) == Standalone(rest)
  {
    hide Padding, IsStandalone;
    StandaloneMarkers(marker);
    MarkedIs(padding, marker, rest);
  }

  lemma TakenIsStandalone(d: Bytes) returns (padding: nat, marker: Byte)
    requires FirstStep(d).Standalone?
    ensures marker in {0x01, 0xd0, 0xd1, 0xd2, 0xd3, 0xd4, 0xd5, 0xd6, 0xd7, 0xd8}
    ensures d == Marked(padding, marker) + FirstStep(d).rest
  {
    hide Padding, IsStandalone;
    padding := Padding(d);
    PaddingIsMarked(d);
    marker := d[padding + 1];
    StandaloneMarkers(marker);
  }

  /** A marker after which no segment is looked for, behind any padding. */
  ghost predicate EndsHere(d: Bytes) {
    exists padding: nat, marker: Byte, rest: Bytes :: IsEnd(d, padding, marker, rest)
  }

  predicate IsEnd(d: Bytes, padding: nat, marker: Byte, rest: Bytes) {
    marker in {END_OF_IMAGE, START_OF_SCAN} && d == Marked(padding, marker) + rest
  }

  /** The segments end in order at the end of the data, of the image, or where the scan starts; any other end is early. */
  lemma SegmentsEndExactlyWhen(d: Bytes)
    ensures FirstStep(d) == End(false) <==> |d| < 2 || EndsHere(d)
  {
    hide FirstStep, IsEnd;
    if |d| < 2 { TooShort(d); }
    if |d| >= 2 && FirstStep(d) == End(false) { EndIsMarked(d); }
    if padding: nat, marker: Byte, rest: Bytes :| IsEnd(d, padding, marker, rest) {
      MarkedIsEnd(d, padding, marker, rest);
    }
  }

  lemma EndIsMarked(d: Bytes)
    requires |d| >= 2 && FirstStep(d) == End(false)
    ensures EndsHere(d)
  {
    hide Padding, IsStandalone, Marked;
    PaddingIsMarked(d);
    assert IsEnd(d, Padding(d), d[Padding(d) + 1], d[Padding(d) + 2..]);
  }

  lemma MarkedIsEnd(d: Bytes, padding: nat, marker: Byte, rest: Bytes)
    requires IsEnd(d, padding, marker, rest)
    ensures FirstStep(d) == End(false)
  {
    hide Padding, IsStandalone, Marked;
    StandaloneMarkers(marker);
    MarkedIs(padding, marker, rest);
  }

  // ----- what a segment says -----

  /** "Exif" and two zeros, and the namespace of XMP with a zero. */
  const EXIF_START: Bytes := [69, 120, 105, 102, 0, 0]
  const XMP_START: Bytes := [104, 116, 116, 112, 58, 47, 47, 110, 115, 46, 97, 100, 111, 98, 101, 46,
                             99, 111, 109, 47, 120, 97, 112, 47, 49, 46, 48, 47, 0]

  /** A frame header has the size behind its precision, height first; a size without pixels is none. */
  lemma FrameSays(found: Found, marker: Byte, precision: Byte, height: nat, width: nat, rest: Bytes, parsers: Parsers)
    requires marker in {0xc0, 0xc1, 0xc2, 0xc3, 0xc5, 0xc6, 0xc7, 0xc9, 0xca, 0xcb, 0xcd, 0xce, 0xcf}
    requires height < 0x10000 && width < 0x10000
    ensures AfterSegment(found, marker, [precision, height / 256, height % 256, width / 256, width % 256] + rest, parsers) ==
      if height > 0 && width > 0 then Found(found.fields.(width := Some(width), height := Some(height)), true) else found
  {
    hide IsFrame, BlockFields;
    FrameMarkers(marker);
    var payload := [precision, height / 256, height % 256, width / 256, width % 256] + rest;
    assert payload[1] == height / 256 && payload[2] == height % 256 && payload[3] == width / 256 && payload[4] == width % 256;
    LengthIsRead(height);
    LengthIsRead(width);
  }

  /** The first application segment says what its block or its packet says, if it starts like one of these, and nothing otherwise. */
  lemma ApplicationSegmentSays(found: Found, payload: Bytes, parsers: Parsers)
    ensures AfterSegment(found, 0xe1, payload, parsers).sawFrame == found.sawFrame
    ensures EXIF_START <= payload && BlockFields(payload[6..], parsers).Some? ==>
      var block, after := BlockFields(payload[6..], parsers).value, AfterSegment(found, 0xe1, payload, parsers).fields;
      && WithoutSize(after) == WithoutSize(block)
      && after.width == (if found.fields.width.Some? then found.fields.width else block.width)
      && after.height == (if found.fields.height.Some? then found.fields.height else block.height)
    ensures XMP_START <= payload && parsers.xmp(payload[29..]).Some? ==>
      AfterSegment(found, 0xe1, payload, parsers).fields == WithPacket(found.fields, parsers.xmp(payload[29..]).value)
    ensures !(EXIF_START <= payload && BlockFields(payload[6..], parsers).Some?) && !(XMP_START <= payload && parsers.xmp(payload[29..]).Some?) ==>
      AfterSegment(found, 0xe1, payload, parsers) == found
  {
    hide IsFrame, BlockFields, WithPacket, BeginsWith;
    FrameMarkers(0xe1);
    BeginsExactlyWhen(payload, EXIF_START);
    BeginsExactlyWhen(payload, XMP_START);
    if EXIF_START <= payload { assert payload[0] == 69; }
    if XMP_START <= payload { assert payload[0] == 104; }
  }

  lemma BeginsExactlyWhen(d: Bytes, prefix: Bytes)
    ensures BeginsWith(d, prefix) <==> prefix <= d
  {
  }

  /** Nothing else says anything. */
  lemma OtherSegmentsSayNothing(found: Found, marker: Byte, payload: Bytes, parsers: Parsers)
    requires marker != 0xe1
    requires marker in {0xc0, 0xc1, 0xc2, 0xc3, 0xc5, 0xc6, 0xc7, 0xc9, 0xca, 0xcb, 0xcd, 0xce, 0xcf} ==> |payload| < 5
    ensures AfterSegment(found, marker, payload, parsers) == found
  {
    hide IsFrame;
    FrameMarkers(marker);
  }

  // ----- leading application segments -----

  /** The first two application markers go with their segments, and all that is left of one that is cut off. */
  lemma LeadingSegmentGoes(marker: Byte, payload: Bytes, rest: Bytes)
    requires marker in {0xe0, 0xe1} && |payload| + 2 < 0x10000
    ensures WithoutApplicationSegments([0xff, marker] + Sized(payload) + rest) == WithoutApplicationSegments(rest)
  {
    var d := [0xff, marker] + Sized(payload) + rest;
    LengthIsRead(|payload| + 2);
    assert d[0] == 0xff && d[1] == marker && d[2] == (|payload| + 2) / 256 && d[3] == (|payload| + 2) % 256;
    assert d[4 + |payload|..] == rest;
  }

  lemma OtherSegmentsStay(d: Bytes)
    requires |d| < 4 || d[0] != 0xff || d[1] !in {0xe0, 0xe1}
    ensures WithoutApplicationSegments(d) == d
  {
  }

  lemma CutSegmentGoes(marker: Byte, length: nat, rest: Bytes)
    requires marker in {0xe0, 0xe1} && length < 0x10000 && |rest| + 2 < length
    ensures WithoutApplicationSegments([0xff, marker, length / 256, length % 256] + rest) == []
  {
    var d := [0xff, marker, length / 256, length % 256] + rest;
    LengthIsRead(length);
    assert d[0] == 0xff && d[1] == marker && d[2] == length / 256 && d[3] == length % 256;
  }
}
