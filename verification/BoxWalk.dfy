/**
 * Boxes of the ISO base media file format (section 4.2 of ISO/IEC 14496-12): reading a header,
 * and the order in which a walk visits the boxes of a file.
 */
module BoxWalk {
  import opened BigEndian
  import opened Media

  const MAXIMUM_DEPTH: nat := 8
  const TWO63: nat := 0x8000_0000_0000_0000

  type Code = Bytes

  const FTYP: Code := [0x66, 0x74, 0x79, 0x70]
  const MOOV: Code := [0x6d, 0x6f, 0x6f, 0x76]
  const MVHD: Code := [0x6d, 0x76, 0x68, 0x64]
  const TRAK: Code := [0x74, 0x72, 0x61, 0x6b]
  const TKHD: Code := [0x74, 0x6b, 0x68, 0x64]
  const MDIA: Code := [0x6d, 0x64, 0x69, 0x61]
  const MINF: Code := [0x6d, 0x69, 0x6e, 0x66]
  const HDLR: Code := [0x68, 0x64, 0x6c, 0x72]
  const SOUN: Code := [0x73, 0x6f, 0x75, 0x6e]
  const META: Code := [0x6d, 0x65, 0x74, 0x61]
  const IPRP: Code := [0x69, 0x70, 0x72, 0x70]
  const IPCO: Code := [0x69, 0x70, 0x63, 0x6f]
  const ISPE: Code := [0x69, 0x73, 0x70, 0x65]

  function ReadU32(bytes: Bytes, offset: int): Option<nat> {
    if offset < 0 || offset + 4 > |bytes| then None else Some(FromU32(bytes[offset..offset + 4]))
  }

  function ReadU64(bytes: Bytes, offset: int): Option<nat> {
    if offset < 0 || offset + 8 > |bytes| then None
    else Some(FromU32(bytes[offset..offset + 4]) * TWO32 + FromU32(bytes[offset + 4..offset + 8]))
  }

  /** Up to `n` bytes from `offset` on. */
  function Mid(bytes: Bytes, offset: nat, n: nat): Bytes {
    if offset >= |bytes| then [] else if offset + n > |bytes| then bytes[offset..] else bytes[offset..offset + n]
  }

  datatype Box = Box(offset: nat, code: Code, payloadOffset: nat, payloadSize: nat, next: nat)

  /** The box whose header starts at `offset`, if header and declared size fit before `limit`. */
  function ReadBox(bytes: Bytes, offset: nat, limit: nat): (box: Option<Box>)
    requires limit <= |bytes|
    ensures box.Some? ==> box.value.offset == offset && offset + 8 <= box.value.payloadOffset
    ensures box.Some? ==> box.value.payloadOffset + box.value.payloadSize == box.value.next <= limit
  {
    var size32 := ReadU32(bytes, offset);
    if offset + 8 > limit || size32.None? then None
    else if size32.value == 1 then
      var size64 := ReadU64(bytes, offset + 8);
      if size64.None? || size64.value >= TWO63 then None
      else Sized(bytes, offset, limit, 16, size64.value)
    else Sized(bytes, offset, limit, 8, if size32.value == 0 then limit - offset else size32.value)
  }

  function Sized(bytes: Bytes, offset: nat, limit: nat, header: nat, total: nat): (box: Option<Box>)
    requires offset + 8 <= limit <= |bytes| && 8 <= header
    ensures box.Some? ==> box.value.offset == offset && offset + 8 <= box.value.payloadOffset
    ensures box.Some? ==> box.value.payloadOffset + box.value.payloadSize == box.value.next <= limit
  {
    if total < header || offset + total > limit then None
    else Some(Box(offset, bytes[offset + 4..offset + 8], offset + header, total - header, offset + total))
  }

  // ----- the order of visits -----

  /** What a walk is looking for decides which boxes it enters. */
  datatype Mode = Movie | Track | Still

  datatype Inside = Inside(mode: Mode, skip: nat)

  function Entered(mode: Mode, code: Code): Option<Inside> {
    match mode
    case Movie => if code == MOOV then Some(Inside(Movie, 0)) else if code == TRAK then Some(Inside(Track, 0)) else None
    case Track => if code == MDIA || code == MINF then Some(Inside(Track, 0)) else None
    case Still => if code == META then Some(Inside(Still, 4)) else if code == IPRP || code == IPCO then Some(Inside(Still, 0)) else None
  }

  /** A box that was read, and the part of its parent's payload in which it was looked for. */
  datatype Visit = Visit(box: Box, mode: Mode, depth: nat, from: nat, limit: nat)

  /** The boxes read by a walk from `offset` to `limit`, each before the boxes inside it. */
  function Visits(bytes: Bytes, offset: nat, limit: nat, depth: nat, mode: Mode): seq<Visit>
    requires limit <= |bytes|
    decreases limit - offset
  {
    if depth > MAXIMUM_DEPTH || offset >= limit then []
    else
      var box := ReadBox(bytes, offset, limit);
      if box.None? then []
      else [Visit(box.value, mode, depth, offset, limit)] + Within(bytes, box.value, limit, depth, mode) + Visits(bytes, box.value.next, limit, depth, mode)
  }

  /** The boxes read inside a box. */
  function Within(bytes: Bytes, box: Box, limit: nat, depth: nat, mode: Mode): seq<Visit>
    requires box.offset + 8 <= box.payloadOffset && box.payloadOffset + box.payloadSize <= limit <= |bytes|
    decreases limit - box.offset - 1
  {
    var inside := Entered(mode, box.code);
    if inside.None? then []
    else Visits(bytes, box.payloadOffset + inside.value.skip, box.payloadOffset + box.payloadSize, depth + 1, inside.value.mode)
  }

  /** The walk as a list of boxes in increasing places, none closer than a header to the next, all inside the range. */
  ghost predicate Orderly(visits: seq<Visit>, offset: nat, limit: nat, depth: nat) {
    && (forall i | 0 <= i < |visits| :: offset <= visits[i].box.offset && visits[i].box.next <= limit)
    && (forall i, j | 0 <= i < j < |visits| :: visits[i].box.offset + 8 <= visits[j].box.offset)
    && (forall i | 0 <= i < |visits| :: visits[i].box.offset + 8 <= visits[i].box.next)
    && (forall i | 0 <= i < |visits| :: depth <= visits[i].depth <= MAXIMUM_DEPTH)
    && (forall i | 0 <= i < |visits| :: visits[i].from <= visits[i].box.offset && visits[i].box.next <= visits[i].limit)
  }

  lemma OrderlyTogether(box: Visit, within: seq<Visit>, after: seq<Visit>, offset: nat, limit: nat, depth: nat)
    requires box.box.offset == offset && offset + 8 <= box.box.next <= limit && box.depth == depth <= MAXIMUM_DEPTH
    requires box.from == offset && box.limit == limit
    requires Orderly(within, offset + 8, box.box.next, depth + 1) && Orderly(after, box.box.next, limit, depth)
    ensures Orderly([box] + within + after, offset, limit, depth)
  {
    hide ReadBox, Sized;
    var all := [box] + within + after;
    assert all[0] == box;
    assert forall i | 1 <= i < 1 + |within| :: all[i] == within[i - 1];
    assert forall i | 1 + |within| <= i < |all| :: all[i] == after[i - 1 - |within|];
  }

  /** Every visited box lies inside the range it was looked for in, and headers never overlap. */
  lemma {:induction false} WalkIsOrderly(bytes: Bytes, offset: nat, limit: nat, depth: nat, mode: Mode)
    requires limit <= |bytes|
    ensures Orderly(Visits(bytes, offset, limit, depth, mode), offset, limit, depth)
    decreases limit - offset
  {
    hide Orderly, ReadBox, Entered;
    NoVisitIsOrderly(offset, limit, depth);
    if depth <= MAXIMUM_DEPTH && offset < limit {
      var box := ReadBox(bytes, offset, limit);
      if box.Some? {
        var inside := Entered(mode, box.value.code);
        NoVisitIsOrderly(offset + 8, box.value.next, depth + 1);
        if inside.Some? {
          var from := box.value.payloadOffset + inside.value.skip;
          WalkIsOrderly(bytes, from, box.value.next, depth + 1, inside.value.mode);
          StartsLater(Visits(bytes, from, box.value.next, depth + 1, inside.value.mode), from, offset + 8, box.value.next, depth + 1);
        }
        WalkIsOrderly(bytes, box.value.next, limit, depth, mode);
        OrderlyTogether(Visit(box.value, mode, depth, offset, limit), Within(bytes, box.value, limit, depth, mode),
                        Visits(bytes, box.value.next, limit, depth, mode), offset, limit, depth);
      }
    }
  }

  lemma NoVisitIsOrderly(offset: nat, limit: nat, depth: nat)
    ensures Orderly([], offset, limit, depth)
  {
  }

  lemma StartsLater(visits: seq<Visit>, offset: nat, earlier: nat, limit: nat, depth: nat)
    requires Orderly(visits, offset, limit, depth) && earlier <= offset
    ensures Orderly(visits, earlier, limit, depth)
  {
  }

  lemma {:induction false} OrderlyIsShort(visits: seq<Visit>, offset: nat, limit: nat, depth: nat)
    requires Orderly(visits, offset, limit, depth) && offset <= limit
    ensures 8 * |visits| <= limit - offset
  {
    if visits != [] {
      var rest, last := visits[..|visits| - 1], visits[|visits| - 1];
      assert forall i | 0 <= i < |rest| :: rest[i] == visits[i];
      OrderlyBefore(visits, offset, limit, depth);
    }
  }

  lemma {:induction false} OrderlyBefore(visits: seq<Visit>, offset: nat, limit: nat, depth: nat)
    requires Orderly(visits, offset, limit, depth) && visits != []
    ensures offset + 8 * (|visits| - 1) <= visits[|visits| - 1].box.offset
    decreases |visits|
  {
    if |visits| > 1 {
      var rest := visits[..|visits| - 1];
      assert forall i | 0 <= i < |rest| :: rest[i] == visits[i];
      OrderlyBefore(rest, offset, limit, depth);
    }
  }

  /** A walk over a file of `n` bytes reads at most `n / 8` boxes. */
  lemma WalkIsLinear(bytes: Bytes, depth: nat, mode: Mode)
    ensures 8 * |Visits(bytes, 0, |bytes|, depth, mode)| <= |bytes|
  {
    WalkIsOrderly(bytes, 0, |bytes|, depth, mode);
    OrderlyIsShort(Visits(bytes, 0, |bytes|, depth, mode), 0, |bytes|, depth);
  }

  /** A box inside an entered box is looked for in exactly the payload of that box. */
  lemma ChildrenLieInThePayload(bytes: Bytes, box: Box, limit: nat, depth: nat, mode: Mode)
    requires box.offset + 8 <= box.payloadOffset && box.payloadOffset + box.payloadSize <= limit <= |bytes|
    ensures forall v | v in Within(bytes, box, limit, depth, mode) ::
      box.payloadOffset <= v.box.offset && v.box.next <= box.payloadOffset + box.payloadSize && v.depth > depth
  {
    var inside := Entered(mode, box.code);
    if inside.Some? {
      WalkIsOrderly(bytes, box.payloadOffset + inside.value.skip, box.payloadOffset + box.payloadSize, depth + 1, inside.value.mode);
    }
  }
}
