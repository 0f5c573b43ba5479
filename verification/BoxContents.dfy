/** What the bytes of a box mean, for the boxes that a reader takes anything from. */
module BoxContents {
  import opened BigEndian
  import opened BoxWalk
  import opened IsoBmff
  import opened IsoBmffWriter
  import opened Media
  import opened Placement

  // ----- numbers -----

  lemma StandingU32(bytes: Bytes, at: nat, n: nat)
    requires n < TWO32 && Stands(bytes, at, U32(n))
    ensures ReadU32(bytes, at) == Some(n)
  {
    WordIsRead(bytes, at, n);
  }

  lemma StandingU64(bytes: Bytes, at: nat, n: nat)
    requires n < TWO64 && Stands(bytes, at, U64(n))
    ensures ReadU64(bytes, at) == Some(n)
  {
    hide FromU32, U32;
    var high, low := n / TWO32, n % TWO32;
    assert U64(n) == U32(high) + U32(low) + [];
    StandsInside(bytes, at, U32(high), U32(low), []);
    U32Inverse(high, []);
    U32Inverse(low, []);
  }

  // ----- the header of any box -----

  /** How far a box reaches and how long its header is: a size of 1 announces 64 bits, and 0 means to the end. */
  predicate Reaches(at: nat, limit: nat, size: nat, long: nat, header: nat, total: nat) {
    && header == (if size == 1 then 16 else 8)
    && total == (if size == 1 then long else if size == 0 then limit - at else size)
  }

  /**
   * A box is read exactly if its header lies before the limit, its size covers the header and ends
   * before the limit, and a long size is a positive number of 64 bits.
   */
  lemma BoxIsReadExactlyWhen(bytes: Bytes, at: nat, limit: nat, size: nat, code: Code, long: nat, header: nat, total: nat)
    requires at + 8 <= limit <= |bytes| && size < TWO32 && |code| == 4 && Stands(bytes, at, U32(size) + code)
    requires size == 1 ==> long < TWO64 && Stands(bytes, at + 8, U64(long))
    requires Reaches(at, limit, size, long, header, total)
    ensures ReadBox(bytes, at, limit) ==
      if header <= total && at + total <= limit && (size == 1 ==> long < 0x8000_0000_0000_0000)
      then Some(Box(at, code, at + header, total - header, at + total)) else None
  {
    hide U32, U64, FromU32, ReadU32, ReadU64;
    assert U32(size) + code + [] == U32(size) + code;
    StandsInside(bytes, at, U32(size), code, []);
    StandingU32(bytes, at, size);
    if size == 1 { StandingU64(bytes, at + 8, long); }
  }

  /** A long size that is cut off makes the box unreadable, and so does a header that is. */
  lemma CutHeaderIsNotRead(bytes: Bytes, at: nat, limit: nat)
    requires limit <= |bytes|
    ensures at + 8 > limit ==> ReadBox(bytes, at, limit) == None
    ensures at + 16 > |bytes| && Stands(bytes, at, U32(1)) ==> ReadBox(bytes, at, limit) == None
  {
    if Stands(bytes, at, U32(1)) { StandingU32(bytes, at, 1); }
  }

  // ----- the header of a movie -----

  /** A header of version 1 has 64-bit times; the creation time is a signed number. */
  lemma LongMovieHeaderIsRead(bytes: Bytes, box: Box, flags: Bytes, creation: nat, modified: nat, timescale: nat, duration: nat)
    requires |flags| == 3 && creation < TWO64 && modified < TWO64 && timescale < TWO32 && duration < TWO64
    requires Stands(bytes, box.payloadOffset, [1] + flags + U64(creation) + U64(modified) + U32(timescale) + U64(duration))
    ensures MovieHeaderOf(bytes, box) ==
      Some(MovieHeader(if creation < 0x8000_0000_0000_0000 then creation else creation - TWO64, timescale, duration))
  {
    hide U64, U32, FromU32, ReadU64, Stands;
    var at, version := box.payloadOffset, [1] + flags;
    StandsInside(bytes, at, version + U64(creation) + U64(modified), U32(timescale), U64(duration));
    StandsInside(bytes, at, version, U64(creation), U64(modified));
    StandingU32(bytes, at + 20, timescale);
    StandingU64(bytes, at + 24, duration);
    StandingU64(bytes, at + 4, creation);
    VersionIsRead(bytes, at, version);
  }

  /** The first byte of four is the version. */
  lemma VersionIsRead(bytes: Bytes, at: nat, version: Bytes)
    requires |version| == 4 && Stands(bytes, at, version)
    ensures ReadU32(bytes, at).Some? && ReadU32(bytes, at).value / 0x1000000 == version[0]
  {
    var b0: int, b1: int, b2: int, b3: int := version[0], version[1], version[2], version[3];
    DigitsOf(b0, b1, b2, b3);
    assert bytes[at..at + 4] == version;
  }

  /** In any other version the times have 32 bits and no sign. */
  lemma ShortMovieHeaderIsRead(bytes: Bytes, box: Box, version: Bytes, creation: nat, modified: nat, timescale: nat, duration: nat)
    requires |version| == 4 && version[0] != 1 && creation < TWO32 && modified < TWO32 && timescale < TWO32 && duration < TWO32
    requires Stands(bytes, box.payloadOffset, version + U32(creation) + U32(modified) + U32(timescale) + U32(duration))
    ensures MovieHeaderOf(bytes, box) == Some(MovieHeader(creation, timescale, duration))
  {
    hide U32, FromU32, Stands;
    var at := box.payloadOffset;
    StandsInside(bytes, at, version + U32(creation) + U32(modified), U32(timescale), U32(duration));
    StandsInside(bytes, at, version, U32(creation), U32(modified));
    StandingU32(bytes, at + 12, timescale);
    StandingU32(bytes, at + 16, duration);
    StandingU32(bytes, at + 4, creation);
    VersionIsRead(bytes, at, version);
  }

  /** A header that is cut off says nothing. */
  lemma CutMovieHeaderIsNotRead(bytes: Bytes, box: Box, version: Bytes)
    requires |version| == 4 && Stands(bytes, box.payloadOffset, version)
    ensures MovieHeaderOf(bytes, box).None? <==> box.payloadOffset + (if version[0] == 1 then 32 else 20) > |bytes|
  {
    VersionIsRead(bytes, box.payloadOffset, version);
  }

  /**
   * The duration is rounded down to milliseconds, from a product that wraps around in 64 bits, and
   * taken as a signed number; a creation time counts from 1904. Zero says nothing.
   */
  lemma HeaderSays(f: Fields, h: MovieHeader)
    ensures var g, wrapped := WithMovieHeader(f, h), h.duration * 1000 % 0x1_0000_0000_0000_0000;
      && (h.timescale == 0 || h.duration == 0 ==> g.durationMs == f.durationMs)
      && (h.timescale > 0 && h.duration > 0 ==> var quotient := wrapped / h.timescale;
            g.durationMs == Some(if quotient < 0x8000_0000_0000_0000 then quotient else quotient - 0x1_0000_0000_0000_0000))
      && g.captureSeconds == (if h.creation <= 0 then f.captureSeconds else Some(h.creation - 2082844800))
      && g == f.(durationMs := g.durationMs, captureSeconds := g.captureSeconds)
  {
    hide DurationMs, Signed64;
    if h.timescale > 0 { DurationWraps(h.timescale, h.duration); }
  }

  lemma DurationWraps(timescale: nat, duration: nat)
    requires timescale > 0
    ensures var quotient := duration * 1000 % 0x1_0000_0000_0000_0000 / timescale;
      DurationMs(timescale, duration) == if quotient < 0x8000_0000_0000_0000 then quotient else quotient - 0x1_0000_0000_0000_0000
  {
    hide Signed64;
    var wrapped := duration * 1000 % TWO64;
    QuotientIsSmaller(wrapped, timescale);
    SignedIs(wrapped / timescale);
  }

  lemma SignedIs(n: nat)
    requires n < TWO64
    ensures Signed64(n) == if n < 0x8000_0000_0000_0000 then n else n - 0x1_0000_0000_0000_0000
  {
  }

  // ----- the header of a track -----

  /** The size is in whole pixels at the end of a header that is long enough; a size without pixels is none. */
  lemma TrackSizeIsRead(bytes: Bytes, box: Box, version: Bytes, width: nat, height: nat)
    requires |version| == 4 && width < TWO32 && height < TWO32 && box.payloadSize >= 12
    requires Stands(bytes, box.payloadOffset, version)
    requires Stands(bytes, box.payloadOffset + box.payloadSize - 8, U32(width) + U32(height))
    ensures TrackSizeOf(bytes, box) ==
      if box.payloadSize >= (if version[0] == 1 then 92 else 80) && width >= 0x10000 && height >= 0x10000
      then Some((width / 0x10000, height / 0x10000)) else None
  {
    hide U32, FromU32, Stands, ReadU32;
    var at := box.payloadOffset + box.payloadSize - 8;
    assert U32(width) + U32(height) + [] == U32(width) + U32(height);
    StandsInside(bytes, at, U32(width), U32(height), []);
    StandingU32(bytes, at, width);
    StandingU32(bytes, at + 4, height);
    VersionIsRead(bytes, box.payloadOffset, version);
  }

  // ----- still images -----

  /** The spatial extents of an image, behind version and flags; an extent of zero is none. */
  lemma ImageSizeIsRead(bytes: Bytes, box: Box, version: Bytes, width: nat, height: nat)
    requires |version| == 4 && width < TWO32 && height < TWO32
    requires Stands(bytes, box.payloadOffset, version + U32(width) + U32(height))
    ensures ImageSizeOf(bytes, box) ==
      if width == 0 || height == 0 then None
      else Some((if width < 0x8000_0000 then width else width - TWO32, if height < 0x8000_0000 then height else height - TWO32))
  {
    hide U32, FromU32, Stands, ReadU32;
    StandsInside(bytes, box.payloadOffset, version, U32(width), U32(height));
    StandingU32(bytes, box.payloadOffset + 4, width);
    StandingU32(bytes, box.payloadOffset + 8, height);
  }

  lemma CutImageSizeIsNotRead(bytes: Bytes, box: Box)
    ensures box.payloadOffset + 12 > |bytes| ==> ImageSizeOf(bytes, box) == None
  {
  }

  function Extents(width: nat, height: nat): (b: Bytes)
    requires width < TWO32 && height < TWO32
    ensures |b| == 20
  {
    EncodeBox(ISPE, [0, 0, 0, 0] + U32(width) + U32(height))
  }

  function Properties(width: nat, height: nat): (b: Bytes)
    requires width < TWO32 && height < TWO32
    ensures |b| == 36
  {
    EncodeBox(IPRP, EncodeBox(IPCO, Extents(width, height)))
  }

  /** A still image: its properties lie in a box whose content starts with version and flags. */
  function EncodeStill(width: nat, height: nat): (b: Bytes)
    requires width < TWO32 && height < TWO32
    ensures |b| == 76
  {
    FileType() + EncodeBox(META, [0, 0, 0, 0] + Properties(width, height))
  }

  /** For every size that is not empty, the reader finds the size of a written still image. */
  lemma StillReadsBack(width: nat, height: nat)
    requires 0 < width < 0x8000_0000 && 0 < height < 0x8000_0000
    ensures var bytes := EncodeStill(width, height);
      && StartsWithFileType(bytes)
      && Gathered(bytes, Visits(bytes, 0, |bytes|, 0, Still), NO_FIELDS) == NO_FIELDS.(width := Some(width), height := Some(height))
  {
    hide Visits, ReadBox, EncodeBox, FileType, ImageSizeOf, Stands, Extents, Properties, EncodeStill, U32, Words, Gathered;
    var bytes := EncodeStill(width, height);
    var sized := NO_FIELDS.(width := Some(width), height := Some(height));
    StillPlaces(width, height);
    LeafIsGathered(bytes, 0, 76, FTYP, BRANDS[..4] + Words([512]) + BRANDS, 0, Still, NO_FIELDS);
    MetaIsGathered(bytes, 28, 76, [0, 0, 0, 0], Properties(width, height), 0, NO_FIELDS);
    NodeIsGathered(bytes, 40, 76, IPRP, EncodeBox(IPCO, Extents(width, height)), 1, Still, NO_FIELDS);
    NodeIsGathered(bytes, 48, 76, IPCO, Extents(width, height), 2, Still, NO_FIELDS);
    LeafIsGathered(bytes, 56, 76, ISPE, [0, 0, 0, 0] + U32(width) + U32(height), 3, Still, NO_FIELDS);
    WrittenBoxIsRead(bytes, 56, 76, ISPE, [0, 0, 0, 0] + U32(width) + U32(height));
    ImageSizeIsRead(bytes, Box(56, ISPE, 64, 12, 76), [0, 0, 0, 0], width, height);
    NothingGathered(bytes, 76, 3, Still, sized);
    NothingGathered(bytes, 76, 2, Still, sized);
    NothingGathered(bytes, 76, 1, Still, sized);
    NothingGathered(bytes, 76, 0, Still, sized);
  }

  /** The box that starts with version and flags was entered behind them. */
  lemma MetaIsGathered(bytes: Bytes, at: nat, limit: nat, version: Bytes, content: Bytes, depth: nat, f: Fields)
    requires |version| == 4 && |content| + 12 < TWO32 && Stands(bytes, at, EncodeBox(META, version + content))
    requires at + |content| + 12 <= limit <= |bytes| && depth <= MAXIMUM_DEPTH
    ensures Gathered(bytes, Visits(bytes, at, limit, depth, Still), f) ==
      Gathered(bytes, Visits(bytes, at + 12 + |content|, limit, depth, Still),
               Gathered(bytes, Visits(bytes, at + 12, at + 12 + |content|, depth + 1, Still), f))
    ensures Stands(bytes, at + 12, content)
  {
    hide Visits, ReadBox, EncodeBox, Stands;
    WrittenBoxIsRead(bytes, at, limit, META, version + content);
    WalkOneBox(bytes, at, limit, depth, Still, f);
    assert version + content + [] == version + content;
    StandsInside(bytes, at + 8, version, content, []);
  }

  lemma StillPlaces(width: nat, height: nat)
    requires width < TWO32 && height < TWO32
    ensures var bytes := EncodeStill(width, height);
      && Stands(bytes, 0, EncodeBox(FTYP, BRANDS[..4] + Words([512]) + BRANDS))
      && Stands(bytes, 28, EncodeBox(META, [0, 0, 0, 0] + Properties(width, height)))
      && StartsWithFileType(bytes)
    ensures Properties(width, height) == EncodeBox(IPRP, EncodeBox(IPCO, Extents(width, height)))
    ensures Extents(width, height) == EncodeBox(ISPE, [0, 0, 0, 0] + U32(width) + U32(height))
  {
    hide Words, Properties;
    var bytes, meta := EncodeStill(width, height), EncodeBox(META, [0, 0, 0, 0] + Properties(width, height));
    assert FileType() + meta + [] == bytes;
    StandsInside(bytes, 0, FileType(), meta, []);
    assert bytes[4..8] == FTYP;
    PropertiesAre(width, height);
  }

  lemma PropertiesAre(width: nat, height: nat)
    requires width < TWO32 && height < TWO32
    ensures Properties(width, height) == EncodeBox(IPRP, EncodeBox(IPCO, Extents(width, height)))
  {
  }
}
