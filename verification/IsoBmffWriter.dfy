/** Writing a movie out of boxes, and reading back what was written. */
module IsoBmffWriter {
  import opened BigEndian
  import opened BoxWalk
  import opened IsoBmff
  import opened Media
  import opened Placement

  /** Words of 32 bits, one after the other. */
  function Words(words: seq<nat>): (b: Bytes)
    requires forall i | 0 <= i < |words| :: words[i] < TWO32
    ensures |b| == 4 * |words|
  {
    if words == [] then [] else Words(words[..|words| - 1]) + U32(words[|words| - 1])
  }

  lemma {:induction false} WordAt(words: seq<nat>, k: nat)
    requires k < |words| && forall i | 0 <= i < |words| :: words[i] < TWO32
    ensures Words(words)[4 * k..4 * k + 4] == U32(words[k])
  {
    if k < |words| - 1 {
      var rest := words[..|words| - 1];
      WordAt(rest, k);
      assert Words(words)[4 * k..4 * k + 4] == Words(rest)[4 * k..4 * k + 4];
    }
  }

  method AppendU32(target: Bytes, value: nat) returns (result: Bytes)
    requires value < TWO32
    ensures result == target + U32(value)
  {
    result := target + [value / 0x1000000, value / 0x10000 % 256, value / 256 % 256, value % 256];
  }

  method AppendWords(target: Bytes, words: seq<nat>) returns (result: Bytes)
    requires forall i | 0 <= i < |words| :: words[i] < TWO32
    ensures result == target + Words(words)
  {
    result := target;
    for i := 0 to |words|
      invariant result == target + Words(words[..i])
    {
      assert words[..i + 1][..i] == words[..i];
      result := AppendU32(result, words[i]);
    }
    assert words[..|words|] == words;
  }

  function EncodeBox(code: Code, payload: Bytes): (b: Bytes)
    requires |code| == 4 && |payload| + 8 < TWO32
    ensures |b| == |payload| + 8
  {
    U32(|payload| + 8) + code + payload
  }

  lemma WordIsRead(bytes: Bytes, offset: nat, word: nat)
    requires word < TWO32 && offset + 4 <= |bytes| && bytes[offset..offset + 4] == U32(word)
    ensures ReadU32(bytes, offset) == Some(word)
  {
    U32Inverse(word, []);
  }

  lemma PartIsRead(bytes: Bytes, at: nat, part: Bytes, from: nat, word: nat)
    requires word < TWO32 && Stands(bytes, at, part) && from + 4 <= |part| && part[from..from + 4] == U32(word)
    ensures ReadU32(bytes, at + from) == Some(word)
  {
    hide U32, FromU32;
    StandingPart(bytes, at, part, from, 4);
    WordIsRead(bytes, at + from, word);
  }

  lemma StandingWord(bytes: Bytes, at: nat, words: seq<nat>, k: nat)
    requires k < |words| && (forall i | 0 <= i < |words| :: words[i] < TWO32) && Stands(bytes, at, Words(words))
    ensures ReadU32(bytes, at + 4 * k) == Some(words[k])
  {
    hide Words, U32, FromU32, Stands, ReadU32;
    WordAt(words, k);
    PartIsRead(bytes, at, Words(words), 4 * k, words[k]);
  }

  /** A written box is read as it was written, and the walk goes on behind it. */
  lemma WrittenBoxIsRead(bytes: Bytes, at: nat, limit: nat, code: Code, payload: Bytes)
    requires |code| == 4 && |payload| + 8 < TWO32 && Stands(bytes, at, EncodeBox(code, payload))
    requires at + |payload| + 8 <= limit <= |bytes|
    ensures ReadBox(bytes, at, limit) == Some(Box(at, code, at + 8, |payload|, at + 8 + |payload|))
    ensures Stands(bytes, at + 8, payload)
  {
    var header := U32(|payload| + 8);
    StandsInside(bytes, at, header, code, payload);
    U32Inverse(|payload| + 8, []);
  }

  // ----- tracks -----

  datatype TrackSpec = TrackSpec(id: nat, width: nat, height: nat, handler: Code)

  predicate IsTrack(t: TrackSpec) {
    t.id < TWO32 && t.width < 0x10000 && t.height < 0x10000 && |t.handler| == 4
  }

  const MATRIX: seq<nat> := [0x10000, 0, 0, 0, 0x10000, 0, 0, 0, 0x40000000]

  function TrackWords(t: TrackSpec): (words: seq<nat>)
    requires IsTrack(t)
    ensures |words| == 21 && forall i | 0 <= i < 21 :: words[i] < TWO32
  {
    [0, 0, 0, t.id, 0, 3000, 0, 0, 0, 0] + MATRIX + [t.width * 0x10000, t.height * 0x10000]
  }

  function HandlerPayload(handler: Code): Bytes {
    Words([0, 0]) + handler + (Words([0, 0, 0]) + [0])
  }

  function MediaPayload(t: TrackSpec): Bytes
    requires IsTrack(t)
  {
    EncodeBox(HDLR, HandlerPayload(t.handler))
  }

  function TrackPayload(t: TrackSpec): (b: Bytes)
    requires IsTrack(t)
    ensures |b| == 133
  {
    EncodeBox(TKHD, Words(TrackWords(t))) + EncodeBox(MDIA, MediaPayload(t))
  }

  function TracksPayload(tracks: seq<TrackSpec>): (b: Bytes)
    requires forall i | 0 <= i < |tracks| :: IsTrack(tracks[i])
    ensures |b| == 141 * |tracks|
  {
    if tracks == [] then [] else EncodeBox(TRAK, TrackPayload(tracks[0])) + TracksPayload(tracks[1..])
  }

  function SizeOf(t: TrackSpec): Option<(int, int)> {
    if t.width == 0 || t.height == 0 then None else Some((t.width, t.height))
  }

  /** What a track adds to the fields gathered so far. */
  function WithTrack(f: Fields, t: TrackSpec): Fields {
    var sized := WithSize(f.(sawTrack := true), SizeOf(t));
    if t.handler == SOUN then sized.(hasAudio := Some(true)) else sized
  }

  function WithTracks(f: Fields, tracks: seq<TrackSpec>): Fields
    decreases |tracks|
  {
    if tracks == [] then f else WithTracks(WithTrack(f, tracks[0]), tracks[1..])
  }

  lemma TrackSizeReadsBack(bytes: Bytes, at: nat, t: TrackSpec)
    requires IsTrack(t) && Stands(bytes, at, Words(TrackWords(t)))
    ensures TrackSizeOf(bytes, Box(at - 8, TKHD, at, 84, at + 84)) == SizeOf(t)
    requires at >= 8
  {
    StandingWord(bytes, at, TrackWords(t), 0);
    StandingWord(bytes, at, TrackWords(t), 19);
    StandingWord(bytes, at, TrackWords(t), 20);
  }

  /** The box was read; nothing inside it is looked at. */
  lemma LeafIsGathered(bytes: Bytes, at: nat, limit: nat, code: Code, payload: Bytes, depth: nat, mode: Mode, f: Fields)
    requires |code| == 4 && |payload| + 8 < TWO32 && Stands(bytes, at, EncodeBox(code, payload))
    requires at + |payload| + 8 <= limit <= |bytes| && depth <= MAXIMUM_DEPTH && Entered(mode, code).None?
    ensures var box := Box(at, code, at + 8, |payload|, at + 8 + |payload|);
      Gathered(bytes, Visits(bytes, at, limit, depth, mode), f) ==
      Gathered(bytes, Visits(bytes, box.next, limit, depth, mode), Contributed(bytes, Visit(box, mode, depth, at, limit), f))
  {
    hide Visits, Contributed, ReadBox, EncodeBox, Stands;
    WrittenBoxIsRead(bytes, at, limit, code, payload);
    WalkOneBox(bytes, at, limit, depth, mode, f);
  }

  /** The box was entered, and its payload walked. */
  lemma NodeIsGathered(bytes: Bytes, at: nat, limit: nat, code: Code, payload: Bytes, depth: nat, mode: Mode, f: Fields)
    requires |code| == 4 && |payload| + 8 < TWO32 && Stands(bytes, at, EncodeBox(code, payload))
    requires at + |payload| + 8 <= limit <= |bytes| && depth <= MAXIMUM_DEPTH
    requires Entered(mode, code).Some? && Entered(mode, code).value.skip == 0
    ensures var box := Box(at, code, at + 8, |payload|, at + 8 + |payload|);
      Gathered(bytes, Visits(bytes, at, limit, depth, mode), f) ==
      Gathered(bytes, Visits(bytes, box.next, limit, depth, mode),
        Gathered(bytes, Visits(bytes, at + 8, at + 8 + |payload|, depth + 1, Entered(mode, code).value.mode),
          Contributed(bytes, Visit(box, mode, depth, at, limit), f)))
    ensures Stands(bytes, at + 8, payload)
  {
    hide Visits, Contributed, ReadBox, EncodeBox, Stands;
    WrittenBoxIsRead(bytes, at, limit, code, payload);
    WalkOneBox(bytes, at, limit, depth, mode, f);
  }

  lemma NothingGathered(bytes: Bytes, limit: nat, depth: nat, mode: Mode, f: Fields)
    requires limit <= |bytes|
    ensures Gathered(bytes, Visits(bytes, limit, limit, depth, mode), f) == f
  {
  }

  lemma HandlerReadsBack(bytes: Bytes, at: nat, handler: Code)
    requires |handler| == 4 && Stands(bytes, at, HandlerPayload(handler))
    ensures Mid(bytes, at + 8, 4) == handler
  {
    StandsInside(bytes, at, Words([0, 0]), handler, Words([0, 0, 0]) + [0]);
  }

  /** The handler of a track says whether it sounds. */
  lemma MediaReadsBack(bytes: Bytes, at: nat, t: TrackSpec, depth: nat, f: Fields)
    requires IsTrack(t) && depth <= MAXIMUM_DEPTH && Stands(bytes, at, MediaPayload(t))
    ensures Gathered(bytes, Visits(bytes, at, at + 33, depth, Track), f) == if t.handler == SOUN then f.(hasAudio := Some(true)) else f
  {
    hide Visits, ReadBox, EncodeBox, HandlerPayload, Mid, TrackSizeOf;
    var payload := HandlerPayload(t.handler);
    assert |payload| == 25 by { HandlerSize(t.handler); }
    WrittenBoxIsRead(bytes, at, at + 33, HDLR, payload);
    LeafIsGathered(bytes, at, at + 33, HDLR, payload, depth, Track, f);
    HandlerReadsBack(bytes, at + 8, t.handler);
    NothingGathered(bytes, at + 33, depth, Track, if t.handler == SOUN then f.(hasAudio := Some(true)) else f);
  }

  lemma HandlerSize(handler: Code)
    requires |handler| == 4
    ensures |HandlerPayload(handler)| == 25
  {
  }

  /** What is read from the payload of a written track. */
  lemma TrackReadsBack(bytes: Bytes, at: nat, t: TrackSpec, depth: nat, f: Fields)
    requires IsTrack(t) && depth < MAXIMUM_DEPTH && Stands(bytes, at, TrackPayload(t)) && f.sawTrack
    ensures Gathered(bytes, Visits(bytes, at, at + 133, depth, Track), f) == WithTrack(f, t)
  {
    hide Visits, ReadBox, EncodeBox, Words, TrackWords, MediaPayload, TrackSizeOf, Mid;
    var header, media := EncodeBox(TKHD, Words(TrackWords(t))), EncodeBox(MDIA, MediaPayload(t));
    assert header + media + [] == TrackPayload(t);
    StandsInside(bytes, at, header, media, []);
    WrittenBoxIsRead(bytes, at, at + 133, TKHD, Words(TrackWords(t)));
    LeafIsGathered(bytes, at, at + 133, TKHD, Words(TrackWords(t)), depth, Track, f);
    TrackSizeReadsBack(bytes, at + 8, t);
    var sized := WithSize(f, SizeOf(t));
    NodeIsGathered(bytes, at + 92, at + 133, MDIA, MediaPayload(t), depth, Track, sized);
    MediaReadsBack(bytes, at + 100, t, depth + 1, sized);
    NothingGathered(bytes, at + 133, depth, Track, WithTrack(f, t));
  }

  /** What is read from a list of written tracks. */
  lemma {:induction false} TracksReadBack(bytes: Bytes, at: nat, tracks: seq<TrackSpec>, depth: nat, f: Fields)
    requires (forall i | 0 <= i < |tracks| :: IsTrack(tracks[i])) && depth < MAXIMUM_DEPTH - 1
    requires Stands(bytes, at, TracksPayload(tracks))
    ensures Gathered(bytes, Visits(bytes, at, at + 141 * |tracks|, depth, Movie), f) == WithTracks(f, tracks)
    decreases |tracks|
  {
    hide Visits, ReadBox, EncodeBox, TrackPayload, IsTrack, MovieHeaderOf, WithTrack;
    var limit := at + 141 * |tracks|;
    if tracks == [] {
      NothingGathered(bytes, limit, depth, Movie, f);
    } else {
      var first, rest := EncodeBox(TRAK, TrackPayload(tracks[0])), TracksPayload(tracks[1..]);
      assert [] + first + rest == TracksPayload(tracks);
      StandsInside(bytes, at, [], first, rest);
      NodeIsGathered(bytes, at, limit, TRAK, TrackPayload(tracks[0]), depth, Movie, f);
      TrackReadsBack(bytes, at + 8, tracks[0], depth + 1, f.(sawTrack := true));
      SawTrackAnyway(f, tracks[0]);
      TracksReadBack(bytes, at + 141, tracks[1..], depth, WithTrack(f, tracks[0]));
    }
  }

  lemma SawTrackAnyway(f: Fields, t: TrackSpec)
    ensures WithTrack(f.(sawTrack := true), t) == WithTrack(f, t)
  {
  }

  // ----- movies -----

  datatype MovieSpec = MovieSpec(timescale: nat, duration: nat, tracks: seq<TrackSpec>)

  const BRANDS: Bytes := [0x69, 0x73, 0x6f, 0x6d, 0x69, 0x73, 0x6f, 0x32, 0x6d, 0x70, 0x34, 0x31]

  /** Everything the writer can put into 32-bit fields. */
  predicate IsMovie(m: MovieSpec) {
    m.timescale < TWO32 && m.duration < TWO32 && 141 * |m.tracks| + 200 < TWO32 && forall i | 0 <= i < |m.tracks| :: IsTrack(m.tracks[i])
  }

  function MovieWords(m: MovieSpec): (words: seq<nat>)
    requires IsMovie(m)
    ensures |words| == 25 && forall i | 0 <= i < 25 :: words[i] < TWO32
  {
    [0, 0, 0, m.timescale, m.duration, 0x10000, 0x1000000, 0, 0] + MATRIX + [0, 0, 0, 0, 0, 0, |m.tracks| + 1]
  }

  function FileType(): (b: Bytes)
    ensures |b| == 28
  {
    EncodeBox(FTYP, BRANDS[..4] + Words([512]) + BRANDS)
  }

  function MoviePayload(m: MovieSpec): (b: Bytes)
    requires IsMovie(m)
    ensures |b| == 108 + 141 * |m.tracks|
  {
    EncodeBox(MVHD, Words(MovieWords(m))) + TracksPayload(m.tracks)
  }

  function EncodeMovie(m: MovieSpec): (b: Bytes)
    requires IsMovie(m)
    ensures |b| == 144 + 141 * |m.tracks|
  {
    FileType() + EncodeBox(MOOV, MoviePayload(m))
  }

  method AppendBox(target: Bytes, code: Code, payload: Bytes) returns (result: Bytes)
    requires |code| == 4 && |payload| + 8 < TWO32
    ensures result == target + EncodeBox(code, payload)
  {
    result := AppendU32(target, |payload| + 8);
    result := result + code;
    result := result + payload;
  }

  method WriteTrack(t: TrackSpec) returns (payload: Bytes)
    requires IsTrack(t)
    ensures payload == TrackPayload(t)
  {
    hide EncodeBox, Words;
    HandlerSize(t.handler);
    var words := AppendWords([], TrackWords(t));
    assert words == Words(TrackWords(t));
    payload := AppendBox([], TKHD, words);
    var handler := AppendWords([], [0, 0]);
    handler := handler + t.handler;
    handler := AppendWords(handler, [0, 0, 0]);
    handler := handler + [0];
    assert handler == HandlerPayload(t.handler);
    var media := AppendBox([], HDLR, handler);
    assert media == MediaPayload(t);
    payload := AppendBox(payload, MDIA, media);
    assert payload == TrackPayload(t);
  }

  method WriteMovie(m: MovieSpec) returns (file: Bytes)
    requires IsMovie(m)
    ensures file == EncodeMovie(m)
  {
    hide EncodeBox, Words, TrackPayload;
    var words := AppendWords([], MovieWords(m));
    assert words == Words(MovieWords(m));
    var moov := AppendBox([], MVHD, words);
    var tracks: Bytes := [];
    for i := 0 to |m.tracks|
      invariant tracks == TracksPayload(m.tracks[..i])
    {
      var track := WriteTrack(m.tracks[i]);
      TrackAppended(m.tracks[..i], m.tracks[i]);
      assert m.tracks[..i + 1] == m.tracks[..i] + [m.tracks[i]];
      tracks := AppendBox(tracks, TRAK, track);
    }
    assert m.tracks[..|m.tracks|] == m.tracks;
    moov := moov + tracks;
    var brand := AppendWords(BRANDS[..4], [512]);
    file := AppendBox([], FTYP, brand + BRANDS);
    file := AppendBox(file, MOOV, moov);
    assert moov == MoviePayload(m);
  }

  lemma {:induction false} TrackAppended(tracks: seq<TrackSpec>, t: TrackSpec)
    requires (forall i | 0 <= i < |tracks| :: IsTrack(tracks[i])) && IsTrack(t)
    ensures TracksPayload(tracks + [t]) == TracksPayload(tracks) + EncodeBox(TRAK, TrackPayload(t))
  {
    hide EncodeBox, TrackPayload, IsTrack;
    if tracks == [] {
      assert [t][1..] == [];
    } else {
      TrackAppended(tracks[1..], t);
      assert (tracks + [t])[1..] == tracks[1..] + [t];
    }
  }

  lemma MovieHeaderReadsBack(bytes: Bytes, at: nat, m: MovieSpec)
    requires IsMovie(m) && at >= 8 && Stands(bytes, at, Words(MovieWords(m)))
    ensures MovieHeaderOf(bytes, Box(at - 8, MVHD, at, 100, at + 100)) == Some(MovieHeader(0, m.timescale, m.duration))
  {
    hide Words;
    StandingWord(bytes, at, MovieWords(m), 0);
    StandingWord(bytes, at, MovieWords(m), 1);
    StandingWord(bytes, at, MovieWords(m), 3);
    StandingWord(bytes, at, MovieWords(m), 4);
  }

  /** The duration in milliseconds, rounded down; unknown when either number is zero. */
  function ExpectedDuration(m: MovieSpec): Option<int> {
    if m.timescale == 0 || m.duration == 0 then None else Some(m.duration * 1000 / m.timescale)
  }

  lemma QuotientIsSmaller(a: nat, b: nat)
    requires b > 0
    ensures 0 <= a / b <= a
  {
    var q := a / b;
    assert a == b * q + a % b;
    Product(b - 1, q);
    OneMoreTime(b, q);
  }

  lemma Product(x: nat, y: nat)
    ensures 0 <= x * y
  {
  }

  lemma OneMoreTime(b: int, q: int)
    ensures b * q == q + (b - 1) * q
  {
  }

  /** Products of 32-bit numbers by a thousand stay far below 64 bits. */
  lemma NoWrap(timescale: nat, duration: nat)
    requires duration < TWO32 && timescale > 0
    ensures DurationMs(timescale, duration) == duration * 1000 / timescale
  {
    var product := duration * 1000;
    assert product < TWO63;
    var quotient := product / timescale;
    QuotientIsSmaller(product, timescale);
    assert product % TWO64 == product;
    assert Signed64(quotient) == quotient;
  }

  function Expected(m: MovieSpec): Fields {
    WithTracks(NO_FIELDS.(durationMs := ExpectedDuration(m)), m.tracks)
  }

  /** What is gathered from a written movie. */
  lemma MovieGathers(m: MovieSpec)
    requires IsMovie(m)
    ensures var bytes := EncodeMovie(m); Gathered(bytes, Visits(bytes, 0, |bytes|, 0, Movie), NO_FIELDS) == Expected(m)
  {
    hide Visits, ReadBox, EncodeBox, Words, MovieWords, TracksPayload, IsTrack, WithTracks, MovieHeaderOf, DurationMs, FileType, MoviePayload;
    var bytes, limit := EncodeMovie(m), 144 + 141 * |m.tracks|;
    MoviePlaces(m);
    LeafIsGathered(bytes, 0, limit, FTYP, BRANDS[..4] + Words([512]) + BRANDS, 0, Movie, NO_FIELDS);
    NodeIsGathered(bytes, 28, limit, MOOV, MoviePayload(m), 0, Movie, NO_FIELDS);
    LeafIsGathered(bytes, 36, limit, MVHD, Words(MovieWords(m)), 1, Movie, NO_FIELDS);
    MovieHeaderReadsBack(bytes, 44, m);
    if m.timescale > 0 { NoWrap(m.timescale, m.duration); }
    TracksReadBack(bytes, 144, m.tracks, 1, NO_FIELDS.(durationMs := ExpectedDuration(m)));
    NothingGathered(bytes, limit, 0, Movie, Expected(m));
  }

  lemma MoviePlaces(m: MovieSpec)
    requires IsMovie(m)
    ensures var bytes := EncodeMovie(m);
      && Stands(bytes, 0, FileType()) && FileType() == EncodeBox(FTYP, BRANDS[..4] + Words([512]) + BRANDS)
      && Stands(bytes, 28, EncodeBox(MOOV, MoviePayload(m)))
      && Stands(bytes, 36, EncodeBox(MVHD, Words(MovieWords(m)))) && Stands(bytes, 44, Words(MovieWords(m)))
      && Stands(bytes, 144, TracksPayload(m.tracks))
  {
    hide Words, MovieWords, TracksPayload, FileType;
    var bytes, moov, header := EncodeMovie(m), EncodeBox(MOOV, MoviePayload(m)), EncodeBox(MVHD, Words(MovieWords(m)));
    assert FileType() + moov + [] == bytes;
    StandsInside(bytes, 0, FileType(), moov, []);
    StandsInside(bytes, 28, U32(|MoviePayload(m)| + 8), MOOV, MoviePayload(m));
    assert [] + header + TracksPayload(m.tracks) == MoviePayload(m);
    StandsInside(bytes, 36, [], header, TracksPayload(m.tracks));
    StandsInside(bytes, 36, U32(108), MVHD, Words(MovieWords(m)));
    FileTypeIs();
  }

  lemma FileTypeIs()
    ensures FileType() == EncodeBox(FTYP, BRANDS[..4] + Words([512]) + BRANDS)
  {
  }

  predicate Sounds(tracks: seq<TrackSpec>) {
    exists i :: 0 <= i < |tracks| && tracks[i].handler == SOUN
  }

  /** The size of the first track that has one. */
  function FirstSize(tracks: seq<TrackSpec>): Option<(int, int)> {
    if tracks == [] then None else if SizeOf(tracks[0]).Some? then SizeOf(tracks[0]) else FirstSize(tracks[1..])
  }

  lemma {:induction false} TracksTogether(f: Fields, tracks: seq<TrackSpec>)
    ensures var g := WithTracks(f, tracks);
      && g.durationMs == f.durationMs && g.captureSeconds == f.captureSeconds
      && g.sawTrack == (f.sawTrack || tracks != [])
      && g.hasAudio == (if Sounds(tracks) then Some(true) else f.hasAudio)
      && (f.width.Some? ==> g.width == f.width && g.height == f.height)
      && (f.width.None? && FirstSize(tracks).None? ==> g.width == f.width && g.height == f.height)
      && (f.width.None? && FirstSize(tracks).Some? ==> g.width == Some(FirstSize(tracks).value.0) && g.height == Some(FirstSize(tracks).value.1))
    decreases |tracks|
  {
    if tracks != [] {
      TracksTogether(WithTrack(f, tracks[0]), tracks[1..]);
      assert Sounds(tracks) <==> tracks[0].handler == SOUN || Sounds(tracks[1..]) by {
        if Sounds(tracks[1..]) {
          var i :| 0 <= i < |tracks[1..]| && tracks[1..][i].handler == SOUN;
          assert tracks[i + 1].handler == SOUN;
        }
        if i :| 0 < i < |tracks| && tracks[i].handler == SOUN {
          assert tracks[1..][i - 1].handler == SOUN;
        }
      }
    }
  }

  /**
   * For every movie that can be written, the reader finds the duration rounded down to
   * milliseconds, the first size that is not zero, and sound exactly if some track's handler says so.
   */
  lemma MovieReadsBack(m: MovieSpec)
    requires IsMovie(m)
    ensures StartsWithFileType(EncodeMovie(m))
    ensures var f := MovieFields(EncodeMovie(m));
      && f.durationMs == ExpectedDuration(m) && f.captureSeconds == None
      && (FirstSize(m.tracks).Some? ==> f.width == Some(FirstSize(m.tracks).value.0) && f.height == Some(FirstSize(m.tracks).value.1))
      && (FirstSize(m.tracks).None? ==> f.width == None && f.height == None)
      && f.hasAudio == (if m.tracks == [] then None else Some(Sounds(m.tracks)))
  {
    hide Visits, Gathered, MoviePayload, WithTracks, Words, FirstSize, Sounds;
    MovieGathers(m);
    TracksTogether(NO_FIELDS.(durationMs := ExpectedDuration(m)), m.tracks);
    NoSound();
    assert EncodeMovie(m)[4..8] == FTYP;
  }

  lemma NoSound()
    ensures !Sounds([])
  {
  }
}
