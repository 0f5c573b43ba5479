/** The metadata a reader gathers from the boxes of a movie or of a still image. */
module IsoBmff {
  import opened BigEndian
  import opened BoxWalk
  import opened Media

  const ISO_EPOCH_TO_UNIX := 2082844800

  datatype Fields = Fields(durationMs: Option<int>, captureSeconds: Option<int>, width: Option<int>, height: Option<int>,
                           hasAudio: Option<bool>, sawTrack: bool)

  const NO_FIELDS := Fields(None, None, None, None, None, false)

  /** An unsigned 64-bit number read as a signed one. */
  function Signed64(n: nat): int {
    var m := n % TWO64;
    if m < TWO63 then m else m - TWO64
  }

  // ----- what each box contributes -----

  datatype MovieHeader = MovieHeader(creation: int, timescale: nat, duration: nat)

  function MovieHeaderOf(bytes: Bytes, box: Box): Option<MovieHeader> {
    var versionAndFlags := ReadU32(bytes, box.payloadOffset);
    if versionAndFlags.None? then None
    else if versionAndFlags.value / 0x1000000 == 1 then
      var creation, timescale, duration :=
        ReadU64(bytes, box.payloadOffset + 4), ReadU32(bytes, box.payloadOffset + 20), ReadU64(bytes, box.payloadOffset + 24);
      if creation.None? || timescale.None? || duration.None? then None
      else Some(MovieHeader(Signed64(creation.value), timescale.value, duration.value))
    else
      var creation, timescale, duration :=
        ReadU32(bytes, box.payloadOffset + 4), ReadU32(bytes, box.payloadOffset + 12), ReadU32(bytes, box.payloadOffset + 16);
      if creation.None? || timescale.None? || duration.None? then None
      else Some(MovieHeader(creation.value, timescale.value, duration.value))
  }

  /** The product wraps around in 64 bits before it is divided. */
  function DurationMs(timescale: nat, duration: nat): int
    requires timescale > 0
  {
    Signed64(duration * 1000 % TWO64 / timescale)
  }

  function WithMovieHeader(f: Fields, h: MovieHeader): Fields {
    f.(durationMs := if h.timescale > 0 && h.duration > 0 then Some(DurationMs(h.timescale, h.duration)) else f.durationMs,
       captureSeconds := if h.creation > 0 then Some(h.creation - ISO_EPOCH_TO_UNIX) else f.captureSeconds)
  }

  /** The display size of a visual track, which is never zero. */
  function TrackSizeOf(bytes: Bytes, box: Box): Option<(int, int)> {
    var versionAndFlags := ReadU32(bytes, box.payloadOffset);
    if versionAndFlags.None? || box.payloadSize < (if versionAndFlags.value / 0x1000000 == 1 then 92 else 80) then None
    else
      var at := box.payloadOffset + box.payloadSize - 8;
      var width, height := ReadU32(bytes, at), ReadU32(bytes, at + 4);
      if width.None? || height.None? || width.value / 0x10000 == 0 || height.value / 0x10000 == 0 then None
      else Some((width.value / 0x10000, height.value / 0x10000))
  }

  function ImageSizeOf(bytes: Bytes, box: Box): Option<(int, int)> {
    var width, height := ReadU32(bytes, box.payloadOffset + 4), ReadU32(bytes, box.payloadOffset + 8);
    if width.None? || height.None? || width.value == 0 || height.value == 0 then None
    else Some((Signed32(width.value), Signed32(height.value)))
  }

  /** The first size wins. */
  function WithSize(f: Fields, size: Option<(int, int)>): Fields {
    if size.None? || f.width.Some? then f else f.(width := Some(size.value.0), height := Some(size.value.1))
  }

  function Contributed(bytes: Bytes, v: Visit, f: Fields): Fields {
    match v.mode
    case Movie =>
      if v.box.code == MVHD then
        var h := MovieHeaderOf(bytes, v.box);
        if h.None? then f else WithMovieHeader(f, h.value)
      else if v.box.code == TRAK then f.(sawTrack := true)
      else f
    case Track =>
      if v.box.code == TKHD then WithSize(f, TrackSizeOf(bytes, v.box))
      else if v.box.code == HDLR && Mid(bytes, v.box.payloadOffset + 8, 4) == SOUN then f.(hasAudio := Some(true))
      else f
    case Still =>
      if v.box.code == ISPE then WithSize(f, ImageSizeOf(bytes, v.box)) else f
  }

  /** Everything the visited boxes contribute, in the order of the visits. */
  function Gathered(bytes: Bytes, visits: seq<Visit>, f: Fields): Fields {
    if visits == [] then f else Gathered(bytes, visits[1..], Contributed(bytes, visits[0], f))
  }

  lemma {:induction false} GatheredTogether(bytes: Bytes, a: seq<Visit>, b: seq<Visit>, f: Fields)
    ensures Gathered(bytes, a + b, f) == Gathered(bytes, b, Gathered(bytes, a, f))
  {
    if a == [] {
      assert a + b == b;
    } else {
      assert (a + b)[1..] == a[1..] + b;
      GatheredTogether(bytes, a[1..], b, Contributed(bytes, a[0], f));
    }
  }

  /** What one box and everything inside it contribute. */
  function BoxGathered(bytes: Bytes, box: Box, limit: nat, depth: nat, mode: Mode, f: Fields): Fields
    requires box.offset + 8 <= box.payloadOffset && box.payloadOffset + box.payloadSize <= limit <= |bytes|
  {
    Gathered(bytes, Within(bytes, box, limit, depth, mode), Contributed(bytes, Visit(box, mode, depth, box.offset, limit), f))
  }

  lemma WalkOneBox(bytes: Bytes, offset: nat, limit: nat, depth: nat, mode: Mode, f: Fields)
    requires offset < limit <= |bytes| && depth <= MAXIMUM_DEPTH && ReadBox(bytes, offset, limit).Some?
    ensures var box := ReadBox(bytes, offset, limit).value;
      Gathered(bytes, Visits(bytes, offset, limit, depth, mode), f) ==
      Gathered(bytes, Visits(bytes, box.next, limit, depth, mode), BoxGathered(bytes, box, limit, depth, mode, f))
  {
    hide Contributed, ReadBox, Within, Entered;
    var box := ReadBox(bytes, offset, limit).value;
    var v, within, after := Visit(box, mode, depth, offset, limit), Within(bytes, box, limit, depth, mode), Visits(bytes, box.next, limit, depth, mode);
    assert Visits(bytes, offset, limit, depth, mode) == [v] + (within + after);
    assert ([v] + (within + after))[1..] == within + after;
    GatheredTogether(bytes, within, after, Contributed(bytes, v, f));
  }

  // ----- the reader -----

  class FieldSet {
    var durationMs: Option<int>
    var captureSeconds: Option<int>
    var width: Option<int>
    var height: Option<int>
    var hasAudio: Option<bool>
    var sawTrack: bool

    constructor ()
      ensures Value() == NO_FIELDS
    {
      durationMs, captureSeconds, width, height, hasAudio, sawTrack := None, None, None, None, None, false;
    }

    function Value(): Fields
      reads this
    {
      Fields(durationMs, captureSeconds, width, height, hasAudio, sawTrack)
    }
  }

  method ReadMovieHeader(bytes: Bytes, box: Box, fields: FieldSet)
    requires box.code == MVHD
    modifies fields
    ensures fields.Value() == Contributed(bytes, Visit(box, Movie, 0, 0, 0), old(fields.Value()))
  {
    var header := MovieHeaderOf(bytes, box);
    if header.None? {
      return;
    }
    var h := header.value;
    if h.timescale > 0 && h.duration > 0 {
      fields.durationMs := Some(DurationMs(h.timescale, h.duration));
    }
    if h.creation > 0 {
      fields.captureSeconds := Some(h.creation - ISO_EPOCH_TO_UNIX);
    }
  }

  method WalkTrack(bytes: Bytes, offset: nat, limit: nat, depth: nat, fields: FieldSet)
    requires limit <= |bytes|
    modifies fields
    ensures fields.Value() == Gathered(bytes, Visits(bytes, offset, limit, depth, Track), old(fields.Value()))
    decreases limit - offset
  {
    hide TrackSizeOf, ReadBox;
    if depth > MAXIMUM_DEPTH {
      return;
    }
    var at := offset;
    while at < limit
      invariant offset <= at
      invariant Gathered(bytes, Visits(bytes, offset, limit, depth, Track), old(fields.Value())) ==
                Gathered(bytes, Visits(bytes, at, limit, depth, Track), fields.Value())
      decreases limit - at
    {
      var read := ReadBox(bytes, at, limit);
      if read.None? {
        break;
      }
      var box := read.value;
      WalkOneBox(bytes, at, limit, depth, Track, fields.Value());
      if box.code == TKHD {
        var size := TrackSizeOf(bytes, box);
        if size.Some? && fields.width.None? {
          fields.width, fields.height := Some(size.value.0), Some(size.value.1);
        }
      } else if box.code == HDLR {
        if Mid(bytes, box.payloadOffset + 8, 4) == SOUN {
          fields.hasAudio := Some(true);
        }
      } else if box.code == MDIA || box.code == MINF {
        WalkTrack(bytes, box.payloadOffset, box.payloadOffset + box.payloadSize, depth + 1, fields);
      }
      at := box.next;
    }
  }

  method Walk(bytes: Bytes, offset: nat, limit: nat, depth: nat, fields: FieldSet)
    requires limit <= |bytes|
    modifies fields
    ensures fields.Value() == Gathered(bytes, Visits(bytes, offset, limit, depth, Movie), old(fields.Value()))
    decreases limit - offset
  {
    hide MovieHeaderOf, ReadBox;
    if depth > MAXIMUM_DEPTH {
      return;
    }
    var at := offset;
    while at < limit
      invariant offset <= at
      invariant Gathered(bytes, Visits(bytes, offset, limit, depth, Movie), old(fields.Value())) ==
                Gathered(bytes, Visits(bytes, at, limit, depth, Movie), fields.Value())
      decreases limit - at
    {
      var read := ReadBox(bytes, at, limit);
      if read.None? {
        break;
      }
      var box := read.value;
      WalkOneBox(bytes, at, limit, depth, Movie, fields.Value());
      if box.code == MOOV {
        Walk(bytes, box.payloadOffset, box.payloadOffset + box.payloadSize, depth + 1, fields);
      } else if box.code == MVHD {
        ReadMovieHeader(bytes, box, fields);
      } else if box.code == TRAK {
        fields.sawTrack := true;
        WalkTrack(bytes, box.payloadOffset, box.payloadOffset + box.payloadSize, depth + 1, fields);
      }
      at := box.next;
    }
  }

  method WalkHeifImage(bytes: Bytes, offset: nat, limit: nat, depth: nat, fields: FieldSet)
    requires limit <= |bytes|
    modifies fields
    ensures fields.Value() == Gathered(bytes, Visits(bytes, offset, limit, depth, Still), old(fields.Value()))
    decreases limit - offset
  {
    hide ImageSizeOf, ReadBox;
    if depth > MAXIMUM_DEPTH {
      return;
    }
    var at := offset;
    while at < limit
      invariant offset <= at
      invariant Gathered(bytes, Visits(bytes, offset, limit, depth, Still), old(fields.Value())) ==
                Gathered(bytes, Visits(bytes, at, limit, depth, Still), fields.Value())
      decreases limit - at
    {
      var read := ReadBox(bytes, at, limit);
      if read.None? {
        break;
      }
      var box := read.value;
      WalkOneBox(bytes, at, limit, depth, Still, fields.Value());
      if box.code == ISPE {
        var size := ImageSizeOf(bytes, box);
        if size.Some? && fields.width.None? {
          fields.width, fields.height := Some(size.value.0), Some(size.value.1);
        }
      } else if box.code == META {
        WalkHeifImage(bytes, box.payloadOffset + 4, box.payloadOffset + box.payloadSize, depth + 1, fields);
      } else if box.code == IPRP || box.code == IPCO {
        WalkHeifImage(bytes, box.payloadOffset, box.payloadOffset + box.payloadSize, depth + 1, fields);
      }
      at := box.next;
    }
  }

  /** What a movie says about itself: no audio is a claim only a file with tracks can support. */
  function MovieFields(bytes: Bytes): Fields {
    var f := Gathered(bytes, Visits(bytes, 0, |bytes|, 0, Movie), NO_FIELDS);
    if f.sawTrack && f.hasAudio.None? then f.(hasAudio := Some(false)) else f
  }

  predicate StartsWithFileType(bytes: Bytes) {
    |bytes| >= 8 && bytes[4..8] == FTYP
  }

  method ReadIsoBmff(bytes: Bytes) returns (ok: bool, fields: FieldSet, durationMissing: bool)
    ensures fresh(fields) && (ok <==> |bytes| >= 8 && bytes[4..8] == [0x66, 0x74, 0x79, 0x70])
    ensures ok ==> fields.Value() == MovieFields(bytes) && (durationMissing <==> fields.durationMs.None?)
    ensures !ok ==> fields.Value() == NO_FIELDS && !durationMissing
  {
    fields := new FieldSet();
    if |bytes| < 8 || bytes[4..8] != FTYP {
      return false, fields, false;
    }
    Walk(bytes, 0, |bytes|, 0, fields);
    durationMissing := fields.durationMs.None?;
    if fields.sawTrack && fields.hasAudio.None? {
      fields.hasAudio := Some(false);
    }
    ok := true;
  }

  method ReadHeifImage(bytes: Bytes) returns (ok: bool, fields: FieldSet)
    ensures fresh(fields) && (ok <==> |bytes| >= 8 && bytes[4..8] == [0x66, 0x74, 0x79, 0x70])
    ensures !ok ==> fields.Value() == NO_FIELDS
    ensures ok ==> fields.Value() == Gathered(bytes, Visits(bytes, 0, |bytes|, 0, Still), NO_FIELDS)
  {
    fields := new FieldSet();
    if |bytes| < 8 || bytes[4..8] != FTYP {
      return false, fields;
    }
    WalkHeifImage(bytes, 0, |bytes|, 0, fields);
    ok := true;
  }
}
