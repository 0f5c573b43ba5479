/** The segments of a JPEG file: reading the metadata in them, and putting an EXIF segment first. */
module JpegReader {
  import opened ExifBuilder
  import opened ExifRoundTrip
  import opened Media
  import opened TiffReader

  const XMP_HEADER: Bytes := [0x68, 0x74, 0x74, 0x70, 0x3a, 0x2f, 0x2f, 0x6e, 0x73, 0x2e, 0x61, 0x64, 0x6f, 0x62, 0x65, 0x2e,
                              0x63, 0x6f, 0x6d, 0x2f, 0x78, 0x61, 0x70, 0x2f, 0x31, 0x2e, 0x30, 0x2f, 0]

  function Big16(high: Byte, low: Byte): nat {
    var h: int, l: int := high, low;
    h * 256 + l
  }

  // ----- segments -----

  datatype Step = End(truncated: bool) | Standalone(rest: Bytes) | Segment(marker: Byte, payload: Bytes, rest: Bytes)

  /** How many bytes of padding precede the last 0xFF before the marker. */
  function Padding(d: Bytes): (n: nat)
    ensures n < |d| || d == []
  {
    if |d| >= 2 && d[1] == 0xff then 1 + Padding(d[1..]) else 0
  }

  predicate IsStandalone(marker: Byte) {
    marker == 0xd8 || marker == 0x01 || 0xd0 <= marker <= 0xd7
  }

  function FirstStep(d: Bytes): (step: Step)
    ensures !step.End? ==> |step.rest| < |d|
  {
    if |d| < 2 then End(false)
    else if d[0] != 0xff then End(true)
    else
      var p := Padding(d);
      if p + 1 >= |d| then End(true)
      else
        var marker, body := d[p + 1], d[p + 2..];
        if IsStandalone(marker) then Standalone(body)
        else if marker == 0xd9 || marker == 0xda then End(false)
        else if |body| < 2 || Big16(body[0], body[1]) < 2 || Big16(body[0], body[1]) > |body| then End(true)
        else Segment(marker, body[2..Big16(body[0], body[1])], body[Big16(body[0], body[1])..])
  }

  // ----- what the segments say -----

  datatype Found = Found(fields: ExifFields, sawFrame: bool)

  predicate IsFrame(marker: Byte) {
    0xc0 <= marker <= 0xcf && marker != 0xc4 && marker != 0xc8 && marker != 0xcc
  }

  predicate BeginsWith(d: Bytes, prefix: Bytes) {
    |prefix| <= |d| && d[..|prefix|] == prefix
  }

  /** The size in the frame header wins over the one in the EXIF block. */
  function WithExif(fields: ExifFields, exif: ExifFields): ExifFields {
    exif.(width := if fields.width.Some? then fields.width else exif.width,
          height := if fields.height.Some? then fields.height else exif.height)
  }

  function AfterSegment(found: Found, marker: Byte, payload: Bytes, parsers: Parsers): Found {
    if IsFrame(marker) && |payload| >= 5 then
      var height, width := Big16(payload[1], payload[2]), Big16(payload[3], payload[4]);
      if width > 0 && height > 0 then Found(found.fields.(width := Some(width), height := Some(height)), true) else found
    else if marker != 0xe1 then found
    else if BeginsWith(payload, EXIF_HEADER) then
      var exif := BlockFields(payload[6..], parsers);
      if exif.None? then found else found.(fields := WithExif(found.fields, exif.value))
    else if BeginsWith(payload, XMP_HEADER) then
      found.(fields := WithXmp(found.fields, parsers.xmp(payload[|XMP_HEADER|..])))
    else found
  }

  /** Everything the segments say, and whether they break off. */
  function Scanned(d: Bytes, found: Found, parsers: Parsers): (Found, bool)
    decreases |d|
  {
    match FirstStep(d)
    case End(truncated) => (found, truncated)
    case Standalone(rest) => Scanned(rest, found, parsers)
    case Segment(marker, payload, rest) => Scanned(rest, AfterSegment(found, marker, payload, parsers), parsers)
  }

  predicate StartsImage(bytes: Bytes) {
    |bytes| >= 2 && bytes[0] == 0xff && bytes[1] == 0xd8
  }

  /** A file without a frame header is not read at all. */
  function JpegFields(bytes: Bytes, parsers: Parsers): Option<ExifFields> {
    if |bytes| < 4 || !StartsImage(bytes) then None
    else
      var found := Scanned(bytes[2..], Found(NO_EXIF, false), parsers).0;
      if found.sawFrame then Some(found.fields) else None
  }

  method SkipPadding(bytes: Bytes, from: nat) returns (position: nat)
    requires from < |bytes|
    ensures position == from + Padding(bytes[from..]) && position < |bytes|
  {
    position := from;
    while position + 1 < |bytes| && bytes[position + 1] == 0xff
      invariant from <= position < |bytes|
      invariant from + Padding(bytes[from..]) == position + Padding(bytes[position..])
    {
      assert bytes[position..][1..] == bytes[position + 1..];
      position := position + 1;
    }
  }

  /** A step, with the position behind it instead of the bytes that are left. */
  datatype Located = Stopped(truncated: bool) | Marker(next: nat) | Data(marker: Byte, payload: Bytes, next: nat)

  /** The next marker from `position` on, and its segment if it has one. */
  method NextSegment(bytes: Bytes, position: nat) returns (step: Located)
    requires position + 1 < |bytes|
    ensures !step.Stopped? ==> position < step.next <= |bytes|
    ensures FirstStep(bytes[position..]) == match step
      case Stopped(truncated) => End(truncated)
      case Marker(next) => Standalone(bytes[next..])
      case Data(marker, payload, next) => Segment(marker, payload, bytes[next..])
  {
    hide Padding;
    ghost var d := bytes[position..];
    if bytes[position] != 0xff {
      return Stopped(true);
    }
    var at := SkipPadding(bytes, position);
    if at + 1 >= |bytes| {
      return Stopped(true);
    }
    var marker, from := bytes[at + 1], at + 2;
    assert d[Padding(d) + 1] == marker && d[Padding(d) + 2..] == bytes[from..];
    if IsStandalone(marker) {
      return Marker(from);
    }
    if marker == 0xd9 || marker == 0xda {
      return Stopped(false);
    }
    ghost var body := bytes[from..];
    if from + 2 > |bytes| || Big16(bytes[from], bytes[from + 1]) < 2 || from + Big16(bytes[from], bytes[from + 1]) > |bytes| {
      return Stopped(true);
    }
    var length := Big16(bytes[from], bytes[from + 1]);
    assert body[2..length] == bytes[from + 2..from + length] && body[length..] == bytes[from + length..];
    step := Data(marker, bytes[from + 2..from + length], from + length);
  }

  method ReadJpeg(bytes: Bytes, parsers: Parsers) returns (ok: bool, fields: ExifFields, truncated: bool)
    ensures ok <==> JpegFields(bytes, parsers).Some?
    ensures ok <==> |bytes| >= 4 && bytes[..2] == [0xff, 0xd8] && Scanned(bytes[2..], Found(NO_EXIF, false), parsers).0.sawFrame
    ensures ok ==> JpegFields(bytes, parsers) == Some(fields)
    ensures ok ==> truncated == Scanned(bytes[2..], Found(NO_EXIF, false), parsers).1
  {
    hide AfterSegment, Padding, FirstStep;
    fields, truncated := NO_EXIF, false;
    if |bytes| < 4 || bytes[0] != 0xff || bytes[1] != 0xd8 {
      return false, fields, false;
    }
    var sawFrame, position := false, 2;
    ghost var whole := Scanned(bytes[2..], Found(NO_EXIF, false), parsers);
    while position + 1 < |bytes|
      invariant 2 <= position <= |bytes| && !truncated
      invariant whole == Scanned(bytes[position..], Found(fields, sawFrame), parsers)
      decreases |bytes| - position
    {
      var step := NextSegment(bytes, position);
      match step
      case Stopped(early) =>
        truncated := early;
        return sawFrame, fields, truncated;
      case Marker(next) =>
        position := next;
      case Data(marker, payload, next) =>
        var found := AfterSegment(Found(fields, sawFrame), marker, payload, parsers);
        fields, sawFrame, position := found.fields, found.sawFrame, next;
    }
    TooShort(bytes[position..]);
    ok := sawFrame;
  }

  lemma TooShort(d: Bytes)
    requires |d| < 2
    ensures FirstStep(d) == End(false)
  {
  }

  // ----- putting an EXIF segment first -----

  /** Without the application segments that an encoder put first. */
  function WithoutApplicationSegments(d: Bytes): (rest: Bytes)
    decreases |d|
  {
    if |d| >= 4 && d[0] == 0xff && (d[1] == 0xe0 || d[1] == 0xe1) then
      var end := 2 + Big16(d[2], d[3]);
      WithoutApplicationSegments(if end > |d| then [] else d[end..])
    else d
  }

  /** The file with this segment as its first application segment, or nothing if it is no JPEG file. */
  method InjectExif(jpeg: Bytes, segment: Bytes) returns (result: Bytes)
    ensures result == if |jpeg| >= 2 && jpeg[0] == 0xff && jpeg[1] == 0xd8 then jpeg[..2] + segment + WithoutApplicationSegments(jpeg[2..]) else []
  {
    if |jpeg| < 2 || jpeg[0] != 0xff || jpeg[1] != 0xd8 {
      return [];
    }
    var position := 2;
    while position + 4 <= |jpeg| && jpeg[position] == 0xff && (jpeg[position + 1] == 0xe0 || jpeg[position + 1] == 0xe1)
      invariant 2 <= position
      invariant WithoutApplicationSegments(jpeg[2..]) == WithoutApplicationSegments(if position <= |jpeg| then jpeg[position..] else [])
      decreases |jpeg| - position
    {
      var length := Big16(jpeg[position + 2], jpeg[position + 3]);
      ghost var d := jpeg[position..];
      assert 2 + length <= |d| ==> d[2 + length..] == jpeg[position + 2 + length..];
      position := position + 2 + length;
    }
    result := jpeg[..2];
    result := result + segment;
    result := result + if position <= |jpeg| then jpeg[position..] else [];
  }

  // ----- reading back what was injected -----

  /** What segments say about everything before them: the last usable EXIF block, the packets after it, and the last frame. */
  datatype Later = Later(exif: Option<ExifFields>, packet: Packet, sawFrame: bool, width: int, height: int)

  const NOTHING_LATER := Later(None, NO_PACKET, false, 0, 0)

  /** Of two packets the later one wins, field by field. */
  function Merged(later: Packet, earlier: Packet): Packet {
    Packet(Over(later.capture, earlier.capture), Over(later.caption, earlier.caption),
           Over(later.rating, earlier.rating), Over(later.tags, earlier.tags))
  }

  function PacketOf(packet: Option<Packet>): Packet {
    if packet.None? then NO_PACKET else packet.value
  }

  function BeforeLater(marker: Byte, payload: Bytes, later: Later, parsers: Parsers): Later {
    if IsFrame(marker) && |payload| >= 5 then
      var height, width := Big16(payload[1], payload[2]), Big16(payload[3], payload[4]);
      if width > 0 && height > 0 && !later.sawFrame then later.(sawFrame := true, width := width, height := height) else later
    else if marker != 0xe1 || later.exif.Some? then later
    else if BeginsWith(payload, EXIF_HEADER) then later.(exif := BlockFields(payload[6..], parsers))
    else if BeginsWith(payload, XMP_HEADER) then
      later.(packet := Merged(later.packet, PacketOf(parsers.xmp(payload[|XMP_HEADER|..]))))
    else later
  }

  /** What the segments of `d` say, taken together. */
  function LaterSegments(d: Bytes, parsers: Parsers): Later
    decreases |d|
  {
    match FirstStep(d)
    case End(truncated) => NOTHING_LATER
    case Standalone(rest) => LaterSegments(rest, parsers)
    case Segment(marker, payload, rest) => BeforeLater(marker, payload, LaterSegments(rest, parsers), parsers)
  }

  /** The last usable EXIF block replaces everything but the size, then later packets win, and the last frame has the size. */
  function Overridden(fields: ExifFields, later: Later): ExifFields {
    var f := WithPacket(if later.exif.Some? then later.exif.value else fields, later.packet);
    if later.sawFrame then f.(width := Some(later.width), height := Some(later.height)) else f
  }

  function WithoutSize(fields: ExifFields): ExifFields {
    fields.(width := None, height := None)
  }

  /** The loop over the segments comes to what they say taken together, but for sizes of files without a frame. */
  ghost predicate Agrees(found: Found, later: Later, after: Found) {
    && after.sawFrame == (found.sawFrame || later.sawFrame)
    && WithoutSize(after.fields) == WithoutSize(Overridden(found.fields, later))
    && (later.sawFrame ==> after.fields == Overridden(found.fields, later))
    && (!later.sawFrame && found.fields.width.Some? && found.fields.height.Some? ==>
          after.fields.width == found.fields.width && after.fields.height == found.fields.height)
  }

  lemma {:induction false} ScannedIsLater(d: Bytes, found: Found, parsers: Parsers)
    ensures Agrees(found, LaterSegments(d, parsers), Scanned(d, found, parsers).0)
    decreases |d|
  {
    hide FirstStep, AfterSegment, BeforeLater;
    match FirstStep(d)
    case End(truncated) =>
    case Standalone(rest) => ScannedIsLater(rest, found, parsers);
    case Segment(marker, payload, rest) =>
      ScannedIsLater(rest, AfterSegment(found, marker, payload, parsers), parsers);
      OneSegmentLater(found, marker, payload, LaterSegments(rest, parsers), Scanned(d, found, parsers).0, parsers);
  }

  lemma OneSegmentLater(found: Found, marker: Byte, payload: Bytes, later: Later, after: Found, parsers: Parsers)
    requires Agrees(AfterSegment(found, marker, payload, parsers), later, after)
    ensures Agrees(found, BeforeLater(marker, payload, later, parsers), after)
  {
    hide BlockFields, Agrees, WithPacket, WithExif, Merged, Big16;
    if IsFrame(marker) && |payload| >= 5 {
      var height, width := Big16(payload[1], payload[2]), Big16(payload[3], payload[4]);
      if width > 0 && height > 0 { FrameLater(found, width, height, later, after); }
    } else if marker == 0xe1 && BeginsWith(payload, EXIF_HEADER) {
      var exif := BlockFields(payload[6..], parsers);
      if exif.Some? { ExifLater(found, exif.value, later, after); }
    } else if marker == 0xe1 && BeginsWith(payload, XMP_HEADER) {
      XmpLater(found, parsers.xmp(payload[|XMP_HEADER|..]), later, after);
    }
  }

  lemma FrameLater(found: Found, width: nat, height: nat, later: Later, after: Found)
    requires Agrees(Found(found.fields.(width := Some(width), height := Some(height)), true), later, after)
    ensures Agrees(found, if later.sawFrame then later else later.(sawFrame := true, width := width, height := height), after)
  {
  }

  lemma ExifLater(found: Found, exif: ExifFields, later: Later, after: Found)
    requires Agrees(found.(fields := WithExif(found.fields, exif)), later, after)
    ensures Agrees(found, if later.exif.Some? then later else later.(exif := Some(exif)), after)
  {
  }

  lemma XmpLater(found: Found, packet: Option<Packet>, later: Later, after: Found)
    requires Agrees(found.(fields := WithXmp(found.fields, packet)), later, after)
    ensures Agrees(found, if later.exif.Some? then later else later.(packet := Merged(later.packet, PacketOf(packet))), after)
  {
  }

  lemma App1IsFirst(s: ExifSpec, rest: Bytes)
    requires IsSpec(s) && FitsOneSegment(s)
    ensures FirstStep(App1(s) + rest) == Segment(0xe1, EXIF_HEADER + TiffBlock(s), rest)
  {
    hide TiffBlock;
    var payload := EXIF_HEADER + TiffBlock(s);
    var d, length := App1(s) + rest, |payload| + 2;
    assert d[0] == 0xff && d[1] == 0xe1 && Padding(d) == 0;
    var body := d[2..];
    assert body == [length / 256 % 256, length % 256] + payload + rest;
    assert Big16(body[0], body[1]) == length;
    assert body[2..length] == payload && body[length..] == rest;
  }

  /** The injected segment alone says what the specification says. */
  lemma SegmentReadsBack(s: ExifSpec, parsers: Parsers)
    requires IsSpec(s) && HasTexts(s)
    ensures AfterSegment(Found(NO_EXIF, false), 0xe1, EXIF_HEADER + TiffBlock(s), parsers) == Found(Expected(s, parsers.isDate), false)
  {
    hide TiffBlock, BlockFields;
    var payload := EXIF_HEADER + TiffBlock(s);
    assert payload[..6] == EXIF_HEADER && payload[6..] == TiffBlock(s);
    BlockReadsBack(s, parsers);
  }

  /** The file into which the block of a specification was injected. */
  function Injected(s: ExifSpec, jpeg: Bytes): Bytes
    requires IsSpec(s) && StartsImage(jpeg)
  {
    jpeg[..2] + App1(s) + WithoutApplicationSegments(jpeg[2..])
  }

  /** What the file says behind the leading application segments. */
  function RestOf(jpeg: Bytes, parsers: Parsers): Later
    requires StartsImage(jpeg)
  {
    LaterSegments(WithoutApplicationSegments(jpeg[2..]), parsers)
  }

  /**
   * A file into which the block of a specification was injected says what the specification says,
   * unless a later EXIF block or XMP packet says otherwise; it is read if it has a frame header,
   * whose size it takes.
   */
  lemma InjectedExifReadsBack(s: ExifSpec, jpeg: Bytes, parsers: Parsers)
    requires IsSpec(s) && HasTexts(s) && FitsOneSegment(s) && StartsImage(jpeg)
    ensures var later := RestOf(jpeg, parsers);
      JpegFields(Injected(s, jpeg), parsers) == if later.sawFrame then Some(Overridden(Expected(s, parsers.isDate), later)) else None
  {
    hide TiffBlock, AfterSegment, Expected, WithoutApplicationSegments, App1, FirstStep, LaterSegments, Overridden;
    var rest := WithoutApplicationSegments(jpeg[2..]);
    App1IsFirst(s, rest);
    assert Injected(s, jpeg)[2..] == App1(s) + rest;
    SegmentReadsBack(s, parsers);
    ScannedIsLater(rest, Found(Expected(s, parsers.isDate), false), parsers);
  }

  /** What the specification says, with the size of the frame. */
  function Sized(s: ExifSpec, later: Later, parsers: Parsers): ExifFields
    requires IsSpec(s)
  {
    Expected(s, parsers.isDate).(width := Some(later.width), height := Some(later.height))
  }

  predicate ReadsBack(s: ExifSpec, jpeg: Bytes, parsers: Parsers)
    requires IsSpec(s) && StartsImage(jpeg)
  {
    JpegFields(Injected(s, jpeg), parsers) == Some(Sized(s, RestOf(jpeg, parsers), parsers))
  }

  /** A specification that only has an orientation. */
  function Turned(orientation: nat): ExifSpec {
    ExifSpec([], [], orientation, [], [], None)
  }

  lemma TurnedFits(orientation: nat)
    requires orientation < 0x10000
    ensures IsSpec(Turned(orientation)) && HasTexts(Turned(orientation)) && FitsOneSegment(Turned(orientation))
  {
    hide IfdBytes;
    var s := Turned(orientation);
    assert PrimaryEntries(s) == [ShortEntry(0x0112, orientation)] && ExifEntries(s) == [] && GpsEntries(s) == [];
    BlockPlaces(s);
    assert DataAfter([], [ShortEntry(0x0112, orientation)]) == [];
  }

  /**
   * Every specification reads back from a file exactly if the file has a frame header and, behind
   * its leading application segments, no usable EXIF block and no XMP packet that says anything.
   */
  lemma InjectedIsReadExactlyWhen(jpeg: Bytes, parsers: Parsers)
    requires StartsImage(jpeg)
    ensures var later := RestOf(jpeg, parsers);
      (forall s: ExifSpec | IsSpec(s) && HasTexts(s) && FitsOneSegment(s) :: ReadsBack(s, jpeg, parsers))
        <==> later.sawFrame && later.exif == None && later.packet == NO_PACKET
  {
    hide IsSpec, HasTexts, FitsOneSegment, RestOf, Injected, JpegFields, TiffBlock, IsTime, OffsetSeconds, Stored;
    var later := RestOf(jpeg, parsers);
    TurnedFits(1);
    TurnedFits(3);
    InjectedExifReadsBack(Turned(1), jpeg, parsers);
    InjectedExifReadsBack(Turned(3), jpeg, parsers);
    TurnedSays(parsers);
    if later.sawFrame && later.exif == None && later.packet == NO_PACKET {
      forall s: ExifSpec | IsSpec(s) && HasTexts(s) && FitsOneSegment(s)
        ensures ReadsBack(s, jpeg, parsers)
      {
        InjectedExifReadsBack(s, jpeg, parsers);
      }
    }
  }

  lemma TurnedSays(parsers: Parsers)
    requires IsSpec(Turned(1)) && IsSpec(Turned(3))
    ensures Expected(Turned(1), parsers.isDate).rotation == Some(0) && Expected(Turned(3), parsers.isDate).rotation == Some(180)
    ensures Expected(Turned(1), parsers.isDate) == NO_EXIF.(rotation := Some(0))
  {
  }

  const COMMENT: Bytes := [0xff, 0xfe, 0, 2]

  /** An image whose first segment is a comment. */
  function AfterComment(d: Bytes): (jpeg: Bytes)
    ensures StartsImage(jpeg) && jpeg[2..] == COMMENT + d
  {
    [0xff, 0xd8] + (COMMENT + d)
  }

  /** A later EXIF block wins over the injected one: here another specification's, behind a comment. */
  lemma LaterExifWins(s: ExifSpec, other: ExifSpec, tail: Bytes, parsers: Parsers)
    requires IsSpec(s) && HasTexts(s) && FitsOneSegment(s) && IsSpec(other) && HasTexts(other) && FitsOneSegment(other)
    requires LaterSegments(tail, parsers).sawFrame && LaterSegments(tail, parsers).exif == None && LaterSegments(tail, parsers).packet == NO_PACKET
    ensures JpegFields(Injected(s, AfterComment(App1(other) + tail)), parsers) == Some(Sized(other, LaterSegments(tail, parsers), parsers))
  {
    hide *;
    var jpeg := AfterComment(App1(other) + tail);
    CommentStays(App1(other) + tail);
    CommentIsSkipped(App1(other) + tail, parsers);
    InjectedExifReadsBack(s, jpeg, parsers);
    OtherIsLater(other, tail, parsers);
    OtherSays(s, other, LaterSegments(tail, parsers), parsers);
    RestIs(jpeg, parsers);
  }

  lemma RestIs(jpeg: Bytes, parsers: Parsers)
    requires StartsImage(jpeg)
    ensures RestOf(jpeg, parsers) == LaterSegments(WithoutApplicationSegments(jpeg[2..]), parsers)
  {
  }

  lemma CommentStays(tail: Bytes)
    ensures WithoutApplicationSegments(COMMENT + tail) == COMMENT + tail
  {
  }

  lemma OtherSays(s: ExifSpec, other: ExifSpec, later: Later, parsers: Parsers)
    requires IsSpec(s) && IsSpec(other) && later.sawFrame && later.exif == None && later.packet == NO_PACKET
    ensures Overridden(Expected(s, parsers.isDate), later.(exif := Some(Expected(other, parsers.isDate)))) == Sized(other, later, parsers)
  {
    hide Expected;
  }

  lemma CommentIsSkipped(tail: Bytes, parsers: Parsers)
    ensures LaterSegments(COMMENT + tail, parsers) == LaterSegments(tail, parsers)
  {
    var d := COMMENT + tail;
    assert d[0] == 0xff && d[1] == 0xfe && Padding(d) == 0;
    assert d[2..] == [0, 2] + tail;
    assert d[2..][2..] == tail;
    assert FirstStep(d) == Segment(0xfe, [], tail);
  }

  lemma OtherIsLater(other: ExifSpec, tail: Bytes, parsers: Parsers)
    requires IsSpec(other) && HasTexts(other) && FitsOneSegment(other) && LaterSegments(tail, parsers).exif == None
    ensures LaterSegments(App1(other) + tail, parsers) == LaterSegments(tail, parsers).(exif := Some(Expected(other, parsers.isDate)))
  {
    hide TiffBlock, Expected, App1, BlockFields, FirstStep;
    var payload := EXIF_HEADER + TiffBlock(other);
    App1IsFirst(other, tail);
    assert payload[..6] == EXIF_HEADER && payload[6..] == TiffBlock(other);
    BlockReadsBack(other, parsers);
  }
}
