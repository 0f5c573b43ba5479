/**
 * The browser's list model: which thumbnails it asks for, keeps and lets go, while its rows,
 * its retention list, the image provider and the requests in flight stay in agreement.
 */
module LibraryModel {
  import opened Media
  import opened GridRows
  import opened Thumbnails

  // ----- row lookup -----

  /** The lookup from ids to rows is exact. */
  ghost predicate Located(items: seq<Item>, rowById: map<Id, nat>) {
    && (forall i | 0 <= i < |items| :: items[i].id in rowById && rowById[items[i].id] == i)
    && (forall id | id in rowById :: rowById[id] < |items| && items[rowById[id]].id == id)
  }

  lemma LocatedUpdate(items: seq<Item>, rowById: map<Id, nat>, i: nat, item: Item)
    requires Located(items, rowById) && i < |items| && item.id == items[i].id
    ensures Located(items[i := item], rowById)
  {
  }

  // ----- what a row asks for -----

  function RecordOf(item: Item, library: map<Id, Record>): Option<Record> {
    if item.record.Some? then item.record
    else if item.id in library then Some(library[item.id])
    else None
  }

  /** The row has a record, and the record an original. */
  predicate HasSource(item: Item, library: map<Id, Record>, pathOf: Record -> Option<Path>) {
    var record := RecordOf(item, library);
    record.Some? && pathOf(record.value).Some?
  }

  /** A row after it was told to ask for its thumbnail if it needs one. */
  function Asking(item: Item, library: map<Id, Record>, pathOf: Record -> Option<Path>, size: nat, handle: nat): (asked: Item)
    ensures asked.id == item.id && asked.image == item.image
    ensures asked.status == Ready <==> item.status == Ready
    ensures HasSource(asked, library, pathOf) <==> HasSource(item, library, pathOf)
    ensures HasSource(item, library, pathOf) ==> asked.status != Pending && (asked.status == Error ==> item.status == Error)
    // A row keeps the record it holds, or else takes the library's; without one it stays as it is.
    ensures item.status != Pending || (item.record.None? && item.id !in library) ==> asked == item
    ensures item.status == Pending && (item.record.Some? || item.id in library) ==>
      var record := if item.record.Some? then item.record.value else library[item.id];
      asked == if pathOf(record).Some?
        then item.(record := Some(record), status := Loading, handle := handle, key := Some(RequestKey(item.id, record.fingerprint, size)))
        else item.(record := Some(record), status := Error)
  {
    var record := RecordOf(item, library);
    if item.status != Pending || record.None? then item
    else if pathOf(record.value).None? then item.(record := record, status := Error)
    else item.(record := record, status := Loading, handle := handle,
               key := Some(RequestKey(item.id, record.value.fingerprint, size)))
  }

  /** Rows change, but neither their ids nor what they can ask for. */
  ghost predicate SameSources(was: seq<Item>, now: seq<Item>, library: map<Id, Record>, pathOf: Record -> Option<Path>) {
    && Ids(was) == Ids(now)
    && forall i | 0 <= i < |was| :: HasSource(now[i], library, pathOf) <==> HasSource(was[i], library, pathOf)
  }

  lemma SameSourcesTwice(a: seq<Item>, b: seq<Item>, c: seq<Item>, library: map<Id, Record>, pathOf: Record -> Option<Path>)
    requires SameSources(a, b, library, pathOf) && SameSources(b, c, library, pathOf)
    ensures SameSources(a, c, library, pathOf) && |a| == |c|
  {
    assert |Ids(a)| == |Ids(b)| == |Ids(c)|;
  }

  lemma StartOfDropping(h: Held, gone: set<RequestKey>, library: map<Id, Record>, pathOf: Record -> Option<Path>)
    requires Consistent(h, gone)
    ensures Distinct(h.retained) && SameSources(h.items, h.items, library, pathOf)
  {
  }

  lemma SourcesKeepIds(a: seq<Item>, b: seq<Item>, library: map<Id, Record>, pathOf: Record -> Option<Path>)
    requires SameSources(a, b, library, pathOf)
    ensures Ids(a) == Ids(b)
  {
  }

  lemma SourcesKeepSources(a: seq<Item>, b: seq<Item>, library: map<Id, Record>, pathOf: Record -> Option<Path>)
    requires SameSources(a, b, library, pathOf) && |a| == |b|
    ensures forall i | 0 <= i < |a| :: HasSource(b[i], library, pathOf) <==> HasSource(a[i], library, pathOf)
  {
  }

  lemma SameSourcesSelf(items: seq<Item>, library: map<Id, Record>, pathOf: Record -> Option<Path>)
    ensures SameSources(items, items, library, pathOf)
  {
  }

  lemma OneRowChanged(items: seq<Item>, i: nat, item: Item, library: map<Id, Record>, pathOf: Record -> Option<Path>)
    requires i < |items| && item.id == items[i].id
    requires HasSource(item, library, pathOf) <==> HasSource(items[i], library, pathOf)
    ensures SameSources(items, items[i := item], library, pathOf)
  {
  }

  lemma AskingKeepsSources(items: seq<Item>, i: nat, library: map<Id, Record>, pathOf: Record -> Option<Path>, size: nat, handle: nat)
    requires i < |items|
    ensures SameSources(items, items[i := Asking(items[i], library, pathOf, size, handle)], library, pathOf)
    ensures items[i := items[i]] == items
  {
    OneRowChanged(items, i, Asking(items[i], library, pathOf, size, handle), library, pathOf);
  }

  // ----- letting go of a picture -----

  /** The state with `id` at the front of the retention list. */
  function Kept(h: Held, id: Id): Held {
    h.(retained := [id] + Without(h.retained, id))
  }

  lemma KeptMeans(h: Held, id: Id)
    ensures Kept(h, id).retained == [id] + Without(h.retained, id)
  {
  }

  function WithoutPicture(items: seq<Item>, rowById: map<Id, nat>, id: Id): seq<Item> {
    if id in rowById && rowById[id] < |items| then items[rowById[id] := Released(items[rowById[id]])] else items
  }

  lemma WithoutPictureIds(items: seq<Item>, rowById: map<Id, nat>, id: Id)
    ensures Ids(WithoutPicture(items, rowById, id)) == Ids(items)
  {
    if id in rowById && rowById[id] < |items| {
      IdsOfUpdate(items, rowById[id], Released(items[rowById[id]]));
    }
  }

  lemma NotARow(items: seq<Item>, rowById: map<Id, nat>, id: Id)
    requires Located(items, rowById)
    ensures id in Ids(items) <==> id in rowById
  {
    if id in rowById { assert Ids(items)[rowById[id]] == id; }
  }

  lemma LocatedRow(items: seq<Item>, rowById: map<Id, nat>, i: nat)
    requires Located(items, rowById) && i < |items|
    ensures items[i].id in rowById && rowById[items[i].id] == i
  {
  }

  lemma LettingGo(h: Held, rowById: map<Id, nat>, id: Id, gone: set<RequestKey>)
    requires Consistent(h, gone) && Located(h.items, rowById)
    ensures var items := WithoutPicture(h.items, rowById, id);
      var h' := h.(items := items, retained := Without(h.retained, id), images := h.images - {id});
      Consistent(h', gone) && Located(items, rowById) && (Servable(h) ==> Servable(h'))
    ensures id in h.retained ==> id in rowById && h.items[rowById[id]].status == Ready
    ensures Distinct(h.retained)
  {
    hide Without, Ids, Servable, Consistent;
    if id in rowById {
      RowReleases(h, rowById[id], gone);
      LocatedUpdate(h.items, rowById, rowById[id], Released(h.items[rowById[id]]));
    } else {
      LettingGoOfNoRow(h, rowById, id, gone);
    }
    DistinctRetained(h, gone);
  }

  lemma DistinctRetained(h: Held, gone: set<RequestKey>)
    requires Consistent(h, gone)
    ensures Distinct(h.retained)
  {
  }

  lemma LettingGoOfNoRow(h: Held, rowById: map<Id, nat>, id: Id, gone: set<RequestKey>)
    requires Consistent(h, gone) && Located(h.items, rowById) && id !in rowById
    ensures id !in h.retained
    ensures Consistent(h.(retained := Without(h.retained, id), images := h.images - {id}), gone)
    ensures Servable(h) ==> Servable(h.(retained := Without(h.retained, id), images := h.images - {id}))
  {
    hide Without, Ids, Elements;
    InElements(h.retained, id);
    NotARow(h.items, rowById, id);
    WithoutAbsent(h.retained, id);
    if Servable(h) {
      assert h.images - {id} == h.images;
    }
  }

  lemma ForgettingRow(items: seq<Item>, rowById: map<Id, nat>, id: Id, library: map<Id, Record>, pathOf: Record -> Option<Path>)
    requires Located(items, rowById)
    ensures SameSources(items, WithoutPicture(items, rowById, id), library, pathOf)
    ensures id in rowById ==> rowById[id] < |items| && items[rowById[id]].id == id
  {
    if id in rowById {
      OneRowChanged(items, rowById[id], Released(items[rowById[id]]), library, pathOf);
    }
  }

  lemma {:induction false} WithoutLast<T>(s: seq<T>)
    requires Distinct(s) && s != []
    ensures Without(s, s[|s| - 1]) == s[..|s| - 1]
  {
    if |s| > 1 {
      WithoutLast(s[1..]);
      assert s[1..][..|s| - 2] == s[1..|s| - 1];
      assert [s[0]] + s[1..|s| - 1] == s[..|s| - 1];
    }
  }

  // ----- the window -----

  function WindowOf(ids: seq<Id>, a: int, b: int): set<Id> {
    set i | 0 <= i < |ids| && a <= i <= b :: ids[i]
  }

  lemma {:induction false} WindowSize(ids: seq<Id>, a: int, b: int)
    ensures |WindowOf(ids, a, b)| <= Max(0, b - a + 1)
    decreases Max(0, b - a + 1)
  {
    if b >= a {
      WindowSize(ids, a, b - 1);
      if 0 <= b < |ids| {
        assert WindowOf(ids, a, b) == WindowOf(ids, a, b - 1) + {ids[b]};
      } else {
        assert WindowOf(ids, a, b) == WindowOf(ids, a, b - 1);
      }
    } else {
      assert WindowOf(ids, a, b) == {};
    }
  }

  lemma InWindow(items: seq<Item>, rowById: map<Id, nat>, a: int, b: int, id: Id)
    requires Located(items, rowById)
    ensures id in WindowOf(Ids(items), a, b) <==> id in rowById && a <= rowById[id] <= b
  {
    if id in rowById { assert Ids(items)[rowById[id]] == id; }
  }

  /** Every row from `a` to `b` has something to ask for. */
  ghost predicate SourcedIn(items: seq<Item>, a: int, b: int, library: map<Id, Record>, pathOf: Record -> Option<Path>) {
    forall i | 0 <= i < |items| && a <= i <= b :: HasSource(items[i], library, pathOf)
  }

  /** No row from `a` to `b` that has something to ask for was left without asking. */
  ghost predicate FilledIn(items: seq<Item>, a: int, b: int, library: map<Id, Record>, pathOf: Record -> Option<Path>) {
    forall i | 0 <= i < |items| && a <= i <= b && items[i].status == Pending :: !HasSource(items[i], library, pathOf)
  }

  /** Requests are in flight for rows from `a` to `b` only. */
  ghost predicate FocusedIn(index: map<RequestKey, nat>, a: int, b: int) {
    forall k | k in index :: a <= index[k] <= b
  }

  function CountIn<T(==)>(s: seq<T>, w: set<T>): nat {
    if s == [] then 0 else CountIn(s[..|s| - 1], w) + if s[|s| - 1] in w then 1 else 0
  }

  lemma AnyImages(h: Held, gone: set<RequestKey>, images: map<Id, Image>)
    requires Consistent(h, gone)
    ensures Consistent(h.(images := images), gone)
  {
  }

  /** An indexed key belongs to a loading row; a key that is not indexed has no open request to lose. */
  lemma IndexedRow(h: Held, key: RequestKey)
    requires Consistent(h, {key})
    ensures key in h.index ==> h.index[key] < |h.items| && h.items[h.index[key]].status == Loading && h.items[h.index[key]].key == Some(key)
    ensures key !in h.index ==> Consistent(h, {})
  {
  }

  lemma WaitingIsNotRetained(h: Held, gone: set<RequestKey>, i: nat)
    requires Consistent(h, gone) && i < |h.items| && h.items[i].status == Loading
    ensures Distinct(h.retained) && h.items[i].id !in h.retained
  {
  }

  /** The items of the requests in flight. */
  ghost function Waiting(index: map<RequestKey, nat>): set<Id> {
    set k | k in index :: k.id
  }

  lemma IsWaiting(index: map<RequestKey, nat>, id: Id)
    ensures id in Waiting(index) <==> exists k :: k in index && k.id == id
  {
  }

  lemma FocusedMeans(index: map<RequestKey, nat>, a: int, b: int, k: RequestKey)
    requires FocusedIn(index, a, b) && k in index
    ensures a <= index[k] <= b
  {
  }

  lemma WaitingRow(h: Held, rowById: map<Id, nat>, k: RequestKey)
    requires Consistent(h, {}) && Located(h.items, rowById) && k in h.index
    ensures k.id in rowById && rowById[k.id] == h.index[k] && k.id !in Elements(h.retained)
  {
    assert KeyedRow(h, h.index[k]);
  }

  /** A row that is neither shown, pending nor failed has a request in flight. */
  lemma WaitsInRow(h: Held, rowById: map<Id, nat>, id: Id)
    requires Consistent(h, {}) && Located(h.items, rowById) && id in rowById && id !in Elements(h.retained)
    requires h.items[rowById[id]].status == Ready || h.items[rowById[id]].status == Loading
    ensures exists k :: k in h.index && k.id == id
  {
    assert KeyedRow(h, rowById[id]);
  }

  lemma WaitersAreDistinct(h: Held)
    requires Consistent(h, {})
    ensures forall k, l | k in h.index && l in h.index && k.id == l.id :: k == l
  {
    forall k, l | k in h.index && l in h.index && k.id == l.id ensures k == l {
      assert KeyedRow(h, h.index[k]) && KeyedRow(h, h.index[l]);
      SameIdSameRow(h.items, h.index[k], h.index[l]);
    }
  }

  /** Requests for different items are as many as the items they are for. */
  lemma {:induction false} OwnIds(index: map<RequestKey, nat>)
    requires forall k, l | k in index && l in index && k.id == l.id :: k == l
    ensures |Waiting(index)| == |index|
    decreases |index|
  {
    if index != map[] {
      var k :| k in index;
      var rest := index - {k};
      assert index == rest[k := index[k]];
      OwnIds(rest);
      assert Waiting(index) == Waiting(rest) + {k.id};
    }
  }

  lemma AnyPending(h: Held, pending: map<nat, RequestKey>)
    ensures Servable(h) <==> Servable(h.(pending := pending))
  {
  }

  /** As many images as retained ids, as many as recently used ids. */
  lemma SameCounts(h: Held, gone: set<RequestKey>, recency: seq<Id>)
    requires Servable(h) && Consistent(h, gone) && Distinct(recency) && Elements(recency) == h.images.Keys
    ensures |recency| == |h.retained|
  {
    ElementCount(h.retained);
    ElementCount(recency);
  }

  lemma FirstIsNotLast<T>(s: seq<T>, i: nat)
    requires Distinct(s) && 0 < i < |s|
    ensures s[0] != s[i]
  {
  }

  lemma CountDropsLast<T>(s: seq<T>, n: nat, w: set<T>)
    requires n < |s|
    ensures CountIn(s[n..], w) == CountIn(s[..|s| - 1][n..], w) + if s[|s| - 1] in w then 1 else 0
  {
    assert s[n..][..|s| - n - 1] == s[..|s| - 1][n..];
  }

  /** Having a source does not depend on what else changed. */
  lemma SourcedAlike(was: seq<Item>, now: seq<Item>, a: int, b: int, library: map<Id, Record>, pathOf: Record -> Option<Path>)
    requires SameSources(was, now, library, pathOf) && |was| == |now|
    ensures SourcedIn(was, a, b, library, pathOf) <==> SourcedIn(now, a, b, library, pathOf)
    ensures SourcedIn(was, a, b, library, pathOf) ==> forall i | 0 <= i < |now| && a <= i <= b :: HasSource(now[i], library, pathOf)
  {
  }

  /** A row of the window that lost its picture and asked again leaves the window filled. */
  lemma AskedAgain(was: seq<Item>, now: seq<Item>, row: nat, a: int, b: int, library: map<Id, Record>, pathOf: Record -> Option<Path>,
                   size: nat, handle: nat)
    requires row < |now| == |was| && forall i | 0 <= i < |now| && i != row :: now[i] == was[i]
    ensures FilledIn(was, a, b, library, pathOf) ==> FilledIn(now[row := Asking(now[row], library, pathOf, size, handle)], a, b, library, pathOf)
  {
  }

  lemma NotCovered(was: seq<Item>, now: seq<Item>, row: int, a: int, b: int, library: map<Id, Record>, pathOf: Record -> Option<Path>)
    requires |now| == |was| && (forall i | 0 <= i < |now| && i != row :: now[i] == was[i]) && !(a <= row <= b && row >= 0)
    ensures FilledIn(was, a, b, library, pathOf) ==> FilledIn(now, a, b, library, pathOf)
  {
  }

  lemma FocusedStill(was: map<RequestKey, nat>, now: map<RequestKey, nat>, row: nat, a: int, b: int)
    requires a <= row <= b && forall k | k in now :: (k in was && now[k] == was[k]) || now[k] == row
    ensures FocusedIn(was, a, b) ==> FocusedIn(now, a, b)
  {
  }

  // ----- moving the window -----

  /** Keys of the rows from `from` on that wait for a picture outside rows `a` to `b`. */
  ghost function OutsideKeys(items: seq<Item>, a: int, b: int, from: nat): set<RequestKey> {
    set i | from <= i < |items| && !(a <= i <= b) && items[i].status == Loading && items[i].key.Some? :: items[i].key.value
  }

  function InsideHandles(items: seq<Item>, a: int, b: int, end: int): set<nat> {
    set i | 0 <= i < |items| && a <= i < end && i <= b && items[i].status == Loading && items[i].handle != 0 :: items[i].handle
  }

  /** A request that is kept belongs to a row inside the window, so its key is not lost. */
  lemma KeptIsInside(h: Held, a: int, b: int, t: nat)
    requires Consistent(h, {}) && t in h.pending && t in InsideHandles(h.items, a, b, b + 1)
    ensures h.pending[t] !in OutsideKeys(h.items, a, b, 0)
  {
    hide Ids, Distinct;
    var i :| 0 <= i < |h.items| && a <= i <= b && h.items[i].status == Loading && h.items[i].handle == t;
    assert KeyedRow(h, i);
    forall j | 0 <= j < |h.items| && !(a <= j <= b) && h.items[j].status == Loading ensures h.items[j].key != Some(h.pending[t]) {
      assert KeyedRow(h, j);
    }
  }

  /** An indexed key that is not lost belongs to a row inside the window. */
  lemma InsideIsKept(h: Held, a: int, b: int, k: RequestKey)
    requires Consistent(h, {}) && k in h.index && k !in OutsideKeys(h.items, a, b, 0)
    requires forall t | t in h.pending :: 1 <= t
    ensures h.index[k] < |h.items| && h.items[h.index[k]].handle in InsideHandles(h.items, a, b, b + 1)
  {
    hide Ids, Distinct;
    assert h.items[h.index[k]].key.value == k;
  }

  /** Cancelling all but the window's requests loses the requests of the other rows, and only those. */
  lemma CancellingOutside(h: Held, a: int, b: int, keep: set<nat>)
    requires Consistent(h, {}) && 0 <= a && b < |h.items| && keep == InsideHandles(h.items, a, b, b + 1)
    requires forall t | t in h.pending :: 1 <= t
    ensures Consistent(h.(pending := KeepOnly(h.pending, keep)), OutsideKeys(h.items, a, b, 0))
  {
    hide Ids, Distinct, OutsideKeys, InsideHandles;
    var gone := OutsideKeys(h.items, a, b, 0);
    forall k | k in h.index && k !in gone ensures h.items[h.index[k]].handle in keep {
      InsideIsKept(h, a, b, k);
    }
    forall t | t in h.pending && t in keep ensures h.pending[t] !in gone {
      KeptIsInside(h, a, b, t);
    }
  }

  /** A row outside the window stops waiting. */
  lemma ResettingOutside(h: Held, a: int, b: int, i: nat, item: Item)
    requires i < |h.items| && Consistent(h, OutsideKeys(h.items, a, b, i))
    requires !(a <= i <= b) && h.items[i].status == Loading && item == Settled(h.items[i])
    ensures h.items[i].key.Some?
    ensures var h' := h.(items := h.items[i := item], index := h.index - {h.items[i].key.value});
      Consistent(h', OutsideKeys(h'.items, a, b, i + 1)) && (Servable(h) ==> Servable(h'))
  {
    hide Ids, Distinct, Servable, Wired;
    assert KeyedRow(h, i);
    var gone, k := OutsideKeys(h.items, a, b, i), h.items[i].key.value;
    assert k in gone;
    RowGivesUp(h, i, item, gone);
    var items := h.items[i := item];
    forall j | i < j < |items| && items[j].status == Loading ensures items[j].key.Some? && items[j].key.value != k {
      assert KeyedRow(h, j);
    }
    assert OutsideKeys(items, a, b, i + 1) == gone - {k};
  }

  lemma OutsideStep(items: seq<Item>, a: int, b: int, i: nat)
    requires i < |items| && ((a <= i <= b) || items[i].status != Loading)
    ensures OutsideKeys(items, a, b, i) == OutsideKeys(items, a, b, i + 1)
  {
  }

  /** When no row outside the window waits, requests are in flight for the window only. */
  lemma NobodyWaitsOutside(h: Held, gone: set<RequestKey>, a: int, b: int)
    requires Consistent(h, gone)
    requires forall i | 0 <= i < |h.items| && !(a <= i <= b) :: h.items[i].status != Loading
    ensures FocusedIn(h.index, a, b) && OutsideKeys(h.items, a, b, |h.items|) == {}
  {
  }

  /** A provider that dropped a picture cannot serve the retained rows any more. */
  lemma LostPicture(h: Held, images: map<Id, Image>)
    requires Servable(h) && images != h.images
    requires forall id | id in images :: id in h.images && images[id] == h.images[id]
    ensures images.Keys != h.images.Keys
    ensures forall items, index, pending :: !Servable(Held(items, h.retained, images, index, pending))
  {
    hide Elements;
    assert images.Keys == h.images.Keys ==> images == h.images;
  }

  // ----- lowering the limit -----

  /** Ready rows are the retained ones, but the provider may have lost some of their pictures. */
  ghost predicate Lossy(h: Held) {
    && RetainedAreReady(h) && h.images.Keys <= Elements(h.retained)
    && (forall i | 0 <= i < |h.items| && h.items[i].id in h.images :: h.items[i].image == Some(h.images[h.items[i].id]))
  }

  lemma ServableIsLossless(h: Held)
    ensures Servable(h) <==> Lossy(h) && Elements(h.retained) <= h.images.Keys
  {
    hide Elements, Ids;
    if Elements(h.retained) == h.images.Keys {
      assert forall id :: id in Elements(h.retained) <==> id in h.images;
    }
  }

  lemma LosingPictures(h: Held, images: map<Id, Image>)
    requires Lossy(h) && forall id | id in images :: id in h.images && images[id] == h.images[id]
    ensures Lossy(h.(images := images))
  {
    hide Elements, Ids;
  }

  lemma ElementsOfCons<T>(s: seq<T>, x: T)
    ensures Elements([x] + s) == Elements(s) + {x}
  {
    assert forall y :: y in [x] + s <==> y == x || y in s;
  }

  lemma OneMoreDropped<T>(s: seq<T>, n: nat)
    requires 0 < n <= |s|
    ensures Elements(s[n - 1..]) == Elements(s[n..]) + {s[..n][n - 1]} && s[..n][..n - 1] == s[..n - 1]
  {
    assert s[n - 1..] == [s[n - 1]] + s[n..];
    ElementsOfCons(s[n..], s[n - 1]);
  }

  /** Which of the first `n` retained pictures are left after the others were let go. */
  lemma KeptPictures(ids: seq<Id>, n: nat, recency: seq<Id>, was: map<Id, Image>, now: map<Id, Image>)
    requires Distinct(ids) && n <= |ids|
    requires Elements(recency) == was.Keys && now == was - Elements(ids[n..])
    ensures Elements(ids[..n]) <= now.Keys <==> forall id | id in ids[..n] :: id in recency
  {
    forall id | id in ids[..n] ensures id in now <==> id in recency {
      assert id in recency <==> id in was.Keys;
    }
  }

  lemma RetainedAreRecent(h: Held, recency: seq<Id>)
    requires Servable(h) && Elements(recency) == h.images.Keys
    ensures forall id | id in h.retained :: id in recency
  {
    forall id | id in h.retained ensures id in recency {
      assert id in Elements(h.retained);
    }
  }

  lemma LossyRelease(h: Held, rowById: map<Id, nat>, id: Id)
    requires Lossy(h) && Distinct(h.retained) && Located(h.items, rowById)
    ensures Lossy(h.(items := WithoutPicture(h.items, rowById, id), retained := Without(h.retained, id), images := h.images - {id}))
  {
    hide Distinct, Without, Ids, Elements;
    WithoutElement(h.retained, id);
    NotARow(h.items, rowById, id);
    if id in rowById {
      IdsOfUpdate(h.items, rowById[id], Released(h.items[rowById[id]]));
    }
  }

  // ----- reloading -----

  function Only(s: seq<Id>, keep: set<Id>): seq<Id> {
    if s == [] then []
    else Only(s[..|s| - 1], keep) + if s[|s| - 1] in keep then [s[|s| - 1]] else []
  }

  lemma {:induction false} OnlyThose(s: seq<Id>, keep: set<Id>)
    requires Distinct(s)
    ensures Distinct(Only(s, keep)) && |Only(s, keep)| <= |s|
    ensures forall x :: x in Only(s, keep) <==> x in s && x in keep
    ensures Elements(Only(s, keep)) == Elements(s) * keep
  {
    if s != [] {
      var rest, last := s[..|s| - 1], s[|s| - 1];
      OnlyThose(rest, keep);
      assert last !in rest;
      assert forall x :: x in s <==> x in rest || x == last;
    }
  }

  /** The state right after a reload replaced the rows and the vanished ones took their pictures along. */
  function Reloaded(h: Held, items: seq<Item>, ids: seq<Id>): Held {
    Held(items, Only(h.retained, Elements(ids)), h.images - (Elements(h.retained) - Elements(ids)), map[], map[])
  }

  lemma RebuiltIds(was: seq<Item>, ids: seq<Id>)
    ensures Ids(Rebuilt(was, ids)) == ids
    ensures forall i | 0 <= i < |ids| :: Rebuilt(was, ids)[i].status != Loading
  {
  }

  /** A rebuilt row is ready exactly when its id was retained, and then it shows what it showed. */
  lemma RebuiltRow(h: Held, ids: seq<Id>, n: nat)
    requires RetainedAreReady(h) && Distinct(Ids(h.items)) && n < |ids|
    ensures var row := Rebuilt(h.items, ids)[n];
      && row.id == ids[n]
      && (row.status == Ready <==> ids[n] in Elements(h.retained))
      && (row.status == Ready ==> exists i :: 0 <= i < |h.items| && h.items[i].id == ids[n] && h.items[i].status == Ready && h.items[i].image == row.image)
  {
    hide Elements;
    if ids[n] in Ids(h.items) {
      var i :| 0 <= i < |h.items| && Ids(h.items)[i] == ids[n];
      RowForAt(h.items, i);
    }
  }

  lemma ReloadIsConsistent(h: Held, ids: seq<Id>, gone: set<RequestKey>)
    requires Consistent(h, gone) && Distinct(ids)
    ensures Consistent(Reloaded(h, Rebuilt(h.items, ids), ids), {})
  {
    hide Rebuilt, Ids, Elements, Distinct, Only;
    OnlyThose(h.retained, Elements(ids));
    RebuiltIds(h.items, ids);
    forall n | 0 <= n < |ids|
      ensures Rebuilt(h.items, ids)[n].status == Ready <==> Rebuilt(h.items, ids)[n].id in Elements(h.retained) * Elements(ids)
    {
      RebuiltRow(h, ids, n);
      InElements(ids, ids[n]);
    }
    forall id | id in Elements(h.retained) * Elements(ids) ensures id in ids {
      InElements(ids, id);
    }
  }

  /** Rows that survive a reload keep what they held; new rows hold nothing. */
  lemma ReloadIsServable(h: Held, ids: seq<Id>)
    requires Servable(h) && RetainedAreReady(h) && Distinct(Ids(h.items)) && Distinct(ids) && Distinct(h.retained)
    ensures Servable(Reloaded(h, Rebuilt(h.items, ids), ids))
  {
    hide Rebuilt, Ids, Distinct;
    forall n | 0 <= n < |ids|
      ensures var row := Rebuilt(h.items, ids)[n];
        row.id == ids[n] && (row.status == Ready <==> ids[n] in h.images) && (row.status == Ready ==> row.image == Some(h.images[ids[n]]))
    {
      RebuiltRow(h, ids, n);
    }
    RebuiltIds(h.items, ids);
    ServableAfterReload(h, Rebuilt(h.items, ids), ids);
  }

  lemma ServableAfterReload(h: Held, items: seq<Item>, ids: seq<Id>)
    requires Servable(h) && Distinct(h.retained) && |items| == |ids| && Ids(items) == ids
    requires forall n | 0 <= n < |ids| :: items[n].id == ids[n]
    requires forall n | 0 <= n < |ids| :: items[n].status == Ready <==> ids[n] in h.images
    requires forall n | 0 <= n < |ids| && items[n].status == Ready :: items[n].image == Some(h.images[ids[n]])
    ensures Servable(Reloaded(h, items, ids))
  {
    hide Distinct, Only, Ids;
    OnlyThose(h.retained, Elements(ids));
    var images := h.images - (Elements(h.retained) - Elements(ids));
    assert images.Keys == Elements(h.retained) * Elements(ids);
    assert forall n | 0 <= n < |ids| :: ids[n] in Elements(ids);
  }

  /** Two windows begin and end with the same items. */
  predicate SameWindow(was: seq<Item>, wasFirst: int, wasLast: int, ids: seq<Id>, first: int, last: int) {
    && 0 <= wasFirst < |was| && 0 <= first < |ids| && ids[first] == was[wasFirst].id
    && 0 <= wasLast < |was| && 0 <= last < |ids| && ids[last] == was[wasLast].id
  }

  /** After a pure insertion the old window's ends are found again, in order. */
  lemma WindowFollows(was: seq<Item>, items: seq<Item>, rowById: map<Id, nat>, ids: seq<Id>)
    requires IsSubsequence(Ids(was), ids) && Ids(items) == ids && Located(items, rowById)
    ensures forall i | 0 <= i < |was| :: was[i].id in rowById && rowById[was[i].id] < |ids| && ids[rowById[was[i].id]] == was[i].id
    ensures forall i, j | 0 <= i < j < |was| :: rowById[was[i].id] < rowById[was[j].id]
  {
    var at :| Embeds(Ids(was), ids, at);
    assert |items| == |ids|;
    forall i | 0 <= i < |was|
      ensures was[i].id in rowById && rowById[was[i].id] == at[i] && ids[at[i]] == was[i].id
    {
      assert Ids(was)[i] == ids[at[i]] == items[at[i]].id;
    }
  }

  lemma NoneKept(pending: map<nat, RequestKey>)
    ensures KeepOnly(pending, {}) == map[]
  {
  }

  lemma ConsistentIds(h: Held, gone: set<RequestKey>)
    requires Consistent(h, gone)
    ensures Distinct(Ids(h.items)) && Distinct(h.retained) && RetainedAreReady(h)
  {
  }

  lemma IdsCount(items: seq<Item>)
    ensures |Ids(items)| == |items|
  {
  }

  lemma NothingReady(h: Held)
    requires Consistent(h, {}) && h.retained == []
    ensures forall i | 0 <= i < |h.items| :: h.items[i].status != Ready
  {
  }

  lemma NothingHeld()
    ensures Elements<Id>([]) == {} && Distinct<Id>([])
  {
  }

  function Cleared(item: Item): Item {
    item.(status := Pending, image := None, handle := 0, key := None)
  }

  function AllCleared(items: seq<Item>): seq<Item> {
    seq(|items|, i requires 0 <= i < |items| => Cleared(items[i]))
  }

  lemma ClearedAgrees(h: Held, rowById: map<Id, nat>)
    requires Consistent(h, {}) && Located(h.items, rowById)
    ensures var cleared := Held(AllCleared(h.items), [], map[], map[], map[]); Consistent(cleared, {}) && Servable(cleared)
    ensures Located(AllCleared(h.items), rowById) && Ids(AllCleared(h.items)) == Ids(h.items)
  {
    var items := h.items;
    assert Ids(AllCleared(items)) == Ids(items);
  }

  /** A row whose request was answered, with a picture or with bytes that hold none. */
  function Answered(item: Item, image: Option<Image>): Item {
    item.(status := if image.Some? then Ready else Error, image := image, handle := 0, key := None)
  }

  // ----- answers -----

  datatype Answer = Picture(image: Image) | NoPicture | Failure

  datatype Event =
    | Delivered(handle: nat, answer: Answer)
    | Viewed(first: int, last: int)
    | Limited(limit: int)
    | Margined(margin: int)
    | Resized(size: nat)
    | Selected(row: int)
    | Refreshed(row: int)
    | Changed(ids: seq<Id>)
    | Painted(id: Id)
    | Stored(library: map<Id, Record>)    // the records behind the rows change

  /** What a view shows and asks for between two events. */
  datatype Sight = Sight(items: seq<Item>, open: map<nat, RequestKey>, first: int, last: int,
                         margin: int, limit: int, size: nat, library: map<Id, Record>)

  function Clamped(row: int, count: nat): int {
    if row < 0 then 0 else if row < count then row else count - 1
  }

  /** What an event changes of the rows, the window and the settings, and that it changes nothing else of them. */
  ghost predicate Followed(event: Event, a: Sight, b: Sight) {
    && (!event.Changed? ==> Ids(b.items) == Ids(a.items))
    && var rest := b.(items := a.items, open := a.open);
       match event
       case Delivered(handle, answer) =>
         && rest == a
         && (handle !in a.open ==> b == a)
         && (handle in a.open ==> forall i | 0 <= i < |a.items| && i < |b.items| && a.items[i].status == Loading && a.items[i].handle == handle ::
               b.items[i].status == if answer.Picture? then Ready else Error)
       case Viewed(first, last) =>
         if a.items == [] then rest == a
         else rest == a.(first := Clamped(first, |a.items|), last := Clamped(last, |a.items|))
       case Limited(limit) => rest == a.(limit := if limit < 1 then 1 else limit)
       case Margined(margin) => b == a.(margin := if margin < 0 then 0 else margin)
       case Resized(size) =>
         if size == 0 || size == a.size then b == a
         else rest == a.(size := size, first := b.first, last := b.last) && forall i | 0 <= i < |b.items| :: b.items[i].status != Ready
       case Selected(_) => rest == a
       case Refreshed(row) =>
         && rest == a
         && forall i | 0 <= i < |a.items| && i < |b.items| && i == row && a.items[i].status != Loading :: b.items[i].image == None
       case Changed(ids) => Ids(b.items) == ids && rest == a.(first := b.first, last := b.last)
       case Painted(_) => b == a
       case Stored(records) => b == a.(library := records)
  }

  /** A delivered request is no longer open, but still indexed. */
  lemma Delivering(h: Held, t: nat)
    requires Consistent(h, {}) && t in h.pending
    ensures h.pending[t] in h.index && Consistent(h.(pending := h.pending - {t}), {h.pending[t]})
  {
    forall k | k in h.index && k != h.pending[t] ensures h.items[h.index[k]].handle != t {
    }
  }

  /** With nothing indexed nothing is open, and no row waits. */
  lemma NothingOpen(h: Held)
    requires Consistent(h, {})
    ensures h.pending == map[] <==> h.index == map[]
    ensures h.index == map[] ==> forall i | 0 <= i < |h.items| :: h.items[i].status != Loading
  {
    if h.index != map[] {
      var k :| k in h.index;
      assert h.items[h.index[k]].handle in h.pending;
    }
    if h.index == map[] {
      forall i | 0 <= i < |h.items| ensures h.items[i].status != Loading {
        assert h.items[i].status == Loading ==> KeyedRow(h, i);
      }
      assert forall t :: t !in h.pending;
    }
  }

  /** The retained ids that were loaded for the window all fit into the limit. */
  lemma {:induction false} DistinctInWindow(s: seq<Id>, w: set<Id>)
    requires Distinct(s) && forall x | x in s :: x in w
    ensures |s| <= |w|
  {
    if s != [] {
      var rest, last := s[..|s| - 1], s[|s| - 1];
      assert last !in rest;
      DistinctInWindow(rest, w - {last});
    }
  }

  class MediaLibraryModel {
    const rows: RowList
    const provider: ThumbnailImageProvider
    const service: ThumbnailService
    const pathOf: Record -> Option<Path>

    var library: map<Id, Record>
    var retained: seq<Id>              // most recently loaded first
    var rowById: map<Id, nat>
    var index: map<RequestKey, nat>
    var visibleFirst: int
    var visibleLast: int
    var prefetchMargin: nat
    var retainedLimit: int
    var size: nat

    constructor (rows: RowList, provider: ThumbnailImageProvider, service: ThumbnailService, pathOf: Record -> Option<Path>)
      requires rows.items == [] && provider.Valid() && provider.images == map[] && service.Valid() && service.pending == map[]
      modifies provider
      ensures Valid({}) && Agrees() && retained == []
      ensures this.rows == rows && this.provider == provider && this.service == service && this.pathOf == pathOf
      ensures visibleFirst == -1 && visibleLast == -1 && prefetchMargin == 20 && retainedLimit == 512 && size == 256
    {
      this.rows, this.provider, this.service, this.pathOf := rows, provider, service, pathOf;
      library, retained, rowById, index := map[], [], map[], map[];
      visibleFirst, visibleLast, prefetchMargin, retainedLimit, size := -1, -1, 20, 512, 256;
      new;
      provider.SetCapacity(520);
    }

    function H(): Held
      reads this, rows, provider, service
    {
      Held(rows.items, retained, provider.images, index, service.pending)
    }

    function Shown(): Sight
      reads this, rows, service
    {
      Sight(rows.items, service.pending, visibleFirst, visibleLast, prefetchMargin, retainedLimit, size, library)
    }

    /** `gone` are the keys of requests the service no longer holds but the index still does. */
    ghost predicate Valid(gone: set<RequestKey>)
      reads this, rows, provider, service
    {
      && provider.Valid() && service.Valid()
      && Consistent(H(), gone) && Located(rows.items, rowById)
      && 1 <= retainedLimit && 9 <= provider.capacity
    }

    function EffectiveLimit(): (limit: int)
      requires 1 <= retainedLimit
      reads `visibleFirst, `visibleLast, `prefetchMargin, `retainedLimit
      ensures 1 <= retainedLimit <= limit
    {
      if visibleFirst < 0 || visibleLast < visibleFirst then retainedLimit
      else Max(retainedLimit, visibleLast - visibleFirst + 1 + 2 * prefetchMargin + 16)
    }

    /** Ready means servable, and there is room for the next picture. */
    ghost predicate Agrees()
      requires 1 <= retainedLimit
      reads this, rows, provider, service
    {
      Servable(H()) && |retained| <= EffectiveLimit() && |retained| + 8 <= provider.capacity
    }

    function FetchFirst(): int
      reads `visibleFirst, `prefetchMargin
    {
      if visibleFirst < 0 then -1 else Max(0, visibleFirst - prefetchMargin)
    }

    function FetchLast(): int
      reads `visibleLast, `prefetchMargin, rows`items
    {
      if visibleLast < 0 then -1 else Min(|rows.items| - 1, visibleLast + prefetchMargin)
    }

    /** The current window, with its margins, covers this row. */
    predicate Covered(row: int)
      reads `visibleFirst, `visibleLast, `prefetchMargin, rows`items
    {
      FetchFirst() <= row <= FetchLast() && row >= 0
    }

    // ----- single steps -----

    /** The store has other records now; rows that already hold theirs keep it. */
    method LoadFrom(records: map<Id, Record>)
      requires Valid({})
      modifies `library
      ensures Valid({}) && library == records && H() == old(H()) && (old(Agrees()) ==> Agrees())
      ensures EffectiveLimit() == old(EffectiveLimit())
      ensures Followed(Stored(records), old(Shown()), Shown())
    {
      library := records;
    }

    lemma LimitIs()
      requires 1 <= retainedLimit
      ensures visibleFirst < 0 || visibleLast < visibleFirst ==> EffectiveLimit() == retainedLimit
      ensures 0 <= visibleFirst <= visibleLast ==>
        EffectiveLimit() == var wide := visibleLast - visibleFirst + 17 + 2 * prefetchMargin; if retainedLimit < wide then wide else retainedLimit
    {
    }

    lemma RetainedHaveRows()
      requires Servable(H()) && retained != []
      ensures rows.items != []
    {
      assert retained[0] in Elements(retained);
    }

    lemma HeldNow()
      ensures H() == Held(rows.items, retained, provider.images, index, service.pending)
    {
    }

    lemma ValidMeans(gone: set<RequestKey> := {})
      requires Valid(gone)
      ensures provider.Valid() && service.Valid() && Consistent(H(), gone) && Located(rows.items, rowById)
      ensures 1 <= retainedLimit && 9 <= provider.capacity
      ensures H() == Held(rows.items, retained, provider.images, index, service.pending)
    {
    }

    lemma ValidWhen(gone: set<RequestKey>)
      requires provider.Valid() && service.Valid() && Located(rows.items, rowById) && 1 <= retainedLimit && 9 <= provider.capacity
      requires Consistent(Held(rows.items, retained, provider.images, index, service.pending), gone)
      ensures Valid(gone) && H() == Held(rows.items, retained, provider.images, index, service.pending)
    {
    }

    lemma AgreesWhen()
      requires Servable(H()) && 1 <= retainedLimit && |retained| <= EffectiveLimit() && |retained| + 8 <= provider.capacity
      ensures Agrees()
    {
    }

    lemma AgreesMeans()
      requires 1 <= retainedLimit && Agrees()
      ensures Servable(H()) && |retained| <= EffectiveLimit() && |retained| + 8 <= provider.capacity
    {
    }

    method SyncCapacity()
      requires provider.Valid() && 1 <= retainedLimit
      modifies provider
      ensures provider.Valid() && provider.capacity == EffectiveLimit() + 8
      ensures provider.recency == Trimmed(old(provider.recency), provider.capacity)
      ensures provider.images == old(provider.images) <==> |old(provider.recency)| <= provider.capacity
      ensures forall id | id in provider.images :: id in old(provider.images) && provider.images[id] == old(provider.images)[id]
    {
      provider.SetCapacity(EffectiveLimit() + 8);
    }

    method RequestThumbnailIfNeeded(row: nat)
      requires Valid({}) && row < |rows.items|
      modifies rows`items, service, `index
      ensures Valid({}) && (old(Servable(H())) ==> Servable(H()))
      ensures rows.items == old(rows.items)[row := Asking(old(rows.items[row]), library, pathOf, size, old(service.nextHandle))]
      ensures |index| == |old(index)| + if old(rows.items[row].status) == Pending && HasSource(old(rows.items[row]), library, pathOf) then 1 else 0
      ensures forall k | k in index :: (k in old(index) && index[k] == old(index)[k]) || index[k] == row
      ensures SameSources(old(rows.items), rows.items, library, pathOf)
    {
      hide Servable, Consistent, Located, SameSources, Ids;
      var item := rows.items[row];
      AskingKeepsSources(rows.items, row, library, pathOf, size, service.nextHandle);
      if item.status != Pending {
        return;
      }
      var record := RecordOf(item, library);
      if record.None? {
        return;
      }
      item := item.(record := record);
      ghost var h := H();
      if pathOf(record.value).None? {
        item := item.(status := Error);
        RowSettles(h, row, item, {});
        LocatedUpdate(rows.items, rowById, row, item);
        rows.items := rows.items[row := item];
        return;
      }
      var key := RequestKey(item.id, record.value.fingerprint, size);
      var handle := service.Request(key);
      item := item.(status := Loading, key := Some(key), handle := handle);
      RowRequests(h, row, item, key);
      LocatedUpdate(rows.items, rowById, row, item);
      rows.items := rows.items[row := item];
      index := index[key := row];
    }

    /** Drops what the provider and the row hold for this id. */
    method ReleaseThumbnail(id: Id)
      requires provider.Valid() && Located(rows.items, rowById)
      modifies rows`items, provider`images, provider`recency
      ensures provider.Valid() && provider.images == old(provider.images) - {id}
      ensures rows.items == WithoutPicture(old(rows.items), rowById, id)
      ensures |rows.items| == |old(rows.items)| && forall i | 0 <= i < |rows.items| :: var was := old(rows.items)[i];
        rows.items[i] == if was.id == id then was.(image := None, status := if was.status == Ready then Pending else was.status) else was
    {
      provider.RemoveImage(id);
      if id !in rowById {
        return;
      }
      var row := rowById[id];
      rows.items := rows.items[row := Released(rows.items[row])];
    }

    function Window(): set<Id>
      reads `visibleFirst, `visibleLast, `prefetchMargin, rows`items
    {
      WindowOf(Ids(rows.items), FetchFirst(), FetchLast())
    }

    /** Retained ids of the window beyond the first `n`, and requests in flight. */
    function Outstanding(n: nat): nat
      reads this, rows
    {
      CountIn(retained[Min(n, |retained|)..], Window()) + |index|
    }

    /** Every covered row has something to ask for. */
    ghost predicate Sourced()
      reads `visibleFirst, `visibleLast, `prefetchMargin, `library, rows`items
    {
      SourcedIn(rows.items, FetchFirst(), FetchLast(), library, pathOf)
    }

    /** No covered row that has something to ask for was left without asking. */
    ghost predicate Filled()
      reads `visibleFirst, `visibleLast, `prefetchMargin, `library, rows`items
    {
      FilledIn(rows.items, FetchFirst(), FetchLast(), library, pathOf)
    }

    /** Requests are in flight for covered rows only. */
    ghost predicate Focused()
      reads `visibleFirst, `visibleLast, `prefetchMargin, `index, rows`items
    {
      FocusedIn(index, FetchFirst(), FetchLast())
    }

    /** Lets go of the least recently loaded thumbnail. */
    method ForgetLast() returns (evictedRow: int)
      requires Valid({}) && retained != []
      modifies `retained, rows`items, provider`images, provider`recency
      ensures Valid({}) && (old(Servable(H())) ==> Servable(H()))
      ensures retained == old(retained)[..|old(retained)| - 1]
      ensures SameSources(old(rows.items), rows.items, library, pathOf)
      ensures evictedRow < |rows.items| == |old(rows.items)|
      ensures forall i | 0 <= i < |rows.items| && i != evictedRow :: rows.items[i] == old(rows.items[i])
      ensures evictedRow >= 0 ==> old(rows.items)[evictedRow].id == old(retained)[|old(retained)| - 1]
      ensures Covered(evictedRow) <==> old(retained)[|old(retained)| - 1] in Window()
      ensures Window() == old(Window())
      ensures evictedRow >= 0 && rows.items[evictedRow].status == Pending
    {
      hide Servable, Consistent, Located, Without, Ids, WindowOf, SameSources, HasSource, Distinct;
      var evicted := retained[|retained| - 1];
      LettingGo(H(), rowById, evicted, {});
      WithoutLast(retained);
      InWindow(rows.items, rowById, FetchFirst(), FetchLast(), evicted);
      ForgettingRow(rows.items, rowById, evicted, library, pathOf);
      retained := retained[..|retained| - 1];
      evictedRow := if evicted in rowById then rowById[evicted] else -1;
      ReleaseThumbnail(evicted);
    }

    /** Drops the least recently loaded thumbnail; a row the window still covers asks for it again. */
    method DropLast(ghost n: nat)
      requires Valid({}) && n < |retained|
      modifies `retained, `index, rows`items, provider`images, provider`recency, service
      ensures Valid({}) && (old(Servable(H())) ==> Servable(H()))
      ensures retained == old(retained)[..|old(retained)| - 1]
      ensures SameSources(old(rows.items), rows.items, library, pathOf) && |rows.items| == |old(rows.items)|
      ensures forall i | 0 <= i < |rows.items| && old(rows.items)[i].id != old(retained)[|old(retained)| - 1] :: rows.items[i] == old(rows.items[i])
      ensures old(Filled()) ==> Filled()
      ensures Outstanding(n) <= old(Outstanding(n))
      ensures old(Sourced()) ==> Sourced() && Outstanding(n) == old(Outstanding(n))
      ensures old(Focused()) ==> Focused()
    {
      hide *;
      ValidMeans();
      CountDropsLast(retained, n, Window());
      WindowMeans(n);
      ghost var items, keys, a, b := rows.items, index, FetchFirst(), FetchLast();
      var evictedRow := ForgetLast();
      ghost var forgotten, handle := rows.items, service.nextHandle;
      WindowMeans(n);
      CoveredMeans(evictedRow);
      SourcedAlike(items, forgotten, a, b, library, pathOf);
      if Covered(evictedRow) {
        RequestThumbnailIfNeeded(evictedRow);
        WindowMeans(n);
        SameSourcesTwice(items, forgotten, rows.items, library, pathOf);
        SourcesKeepIds(items, rows.items, library, pathOf);
        SourcedAlike(forgotten, rows.items, a, b, library, pathOf);
        AskedAgain(items, forgotten, evictedRow, a, b, library, pathOf, size, handle);
        FocusedStill(keys, index, evictedRow, a, b);
      } else {
        NotCovered(items, forgotten, evictedRow, a, b, library, pathOf);
      }
    }

    /** What the window is made of, for states that differ in other things. */
    lemma WindowMeans(n: nat)
      ensures FetchFirst() == (if visibleFirst < 0 then -1 else Max(0, visibleFirst - prefetchMargin))
      ensures FetchLast() == (if visibleLast < 0 then -1 else Min(|rows.items| - 1, visibleLast + prefetchMargin))
      ensures Window() == WindowOf(Ids(rows.items), FetchFirst(), FetchLast())
      ensures Filled() <==> FilledIn(rows.items, FetchFirst(), FetchLast(), library, pathOf)
      ensures Sourced() <==> SourcedIn(rows.items, FetchFirst(), FetchLast(), library, pathOf)
      ensures Focused() <==> FocusedIn(index, FetchFirst(), FetchLast())
      ensures n <= |retained| ==> Outstanding(n) == CountIn(retained[n..], Window()) + |index|
    {
    }

    lemma CoveredMeans(row: int)
      ensures Covered(row) <==> FetchFirst() <= row <= FetchLast() && row >= 0
    {
    }

    /** Drops the least recently loaded thumbnails until the limit is met. */
    method DropBeyondLimit(ghost n: nat)
      requires Valid({}) && n <= |retained| && n <= EffectiveLimit()
      modifies `retained, `index, rows`items, provider`images, provider`recency, service
      ensures Valid({}) && (old(Servable(H())) ==> Servable(H()))
      ensures retained == Trimmed(old(retained), EffectiveLimit())
      ensures SameSources(old(rows.items), rows.items, library, pathOf) && |rows.items| == |old(rows.items)|
      ensures forall i | 0 <= i < |rows.items| && old(retained) != [] && old(rows.items)[i].id == old(retained)[0] :: rows.items[i] == old(rows.items[i])
      ensures old(Filled()) ==> Filled()
      ensures Outstanding(n) <= old(Outstanding(n))
      ensures old(Sourced()) ==> Sourced() && Outstanding(n) == old(Outstanding(n))
      ensures old(Focused()) ==> Focused()
    {
      hide Servable, Consistent, Located, SameSources, HasSource, Outstanding, Distinct, Filled, Sourced, Focused;
      StartOfDropping(H(), {}, library, pathOf);
      ghost var limit, out, items, ids := EffectiveLimit(), Outstanding(n), rows.items, retained;
      ghost var servable, filled, sourced, focused := Servable(H()), Filled(), Sourced(), Focused();
      while |retained| > EffectiveLimit()
        invariant Valid({}) && (servable ==> Servable(H()))
        invariant 1 <= retainedLimit && EffectiveLimit() == limit
        invariant n <= |retained| <= |ids| && retained == ids[..|retained|] && |retained| >= Min(limit, |ids|)
        invariant SameSources(items, rows.items, library, pathOf) && |rows.items| == |items|
        invariant forall i | 0 <= i < |items| && ids != [] && items[i].id == ids[0] :: rows.items[i] == items[i]
        invariant filled ==> Filled()
        invariant Outstanding(n) <= out
        invariant sourced ==> Sourced() && Outstanding(n) == out
        invariant focused ==> Focused()
        decreases |retained|
      {
        FirstIsNotLast(ids, |retained| - 1);
        ghost var before := rows.items;
        DropLast(n);
        SameSourcesTwice(items, before, rows.items, library, pathOf);
      }
    }

    /** The picture of `row` becomes the most recently loaded one; the oldest make room for it. */
    method RetainThumbnail(row: nat, ghost n: nat, ghost agrees: bool)
      requires row < |rows.items| && 1 <= retainedLimit && n <= EffectiveLimit()
      requires provider.Valid() && service.Valid() && Located(rows.items, rowById)
      requires Consistent(Kept(H(), rows.items[row].id), {})
      requires n <= |Kept(H(), rows.items[row].id).retained| && (agrees ==> Fits(row))
      modifies `retained, `index, rows`items, provider, service
      ensures Valid({}) && provider.capacity == EffectiveLimit() + 8
      ensures retained == Trimmed([old(rows.items[row].id)] + Without(old(retained), old(rows.items[row].id)), EffectiveLimit())
      ensures |rows.items| == |old(rows.items)| && rows.items[row] == old(rows.items[row])
      ensures Ids(rows.items) == old(Ids(rows.items))
      ensures old(Focused()) ==> Focused()
      ensures old(Filled()) ==> Filled()
      ensures Outstanding(n) <= old(OutstandingWith(row, n))
      ensures old(Sourced()) ==> Sourced() && Outstanding(n) == old(OutstandingWith(row, n))
      ensures agrees ==> Servable(H())
    {
      hide Servable, Consistent, Located, SameSources, HasSource, CountIn, Without, Ids, Focused, Filled, Sourced, Window, Elements, Trimmed, Covered, FetchFirst, FetchLast;
      ghost var kept := Kept(H(), rows.items[row].id);
      if agrees {
        SameCounts(kept, {}, provider.recency);
      }
      SyncCapacity();
      AnyImages(kept, {}, provider.images);
      var id := rows.items[row].id;
      retained := [id] + Without(retained, id);
      DropBeyondLimit(n);
      assert Ids(rows.items) == old(Ids(rows.items)) by { SourcesKeepIds(old(rows.items), rows.items, library, pathOf); }
    }

    /** With the picture of `row` at the front the provider serves every ready row, within its capacity to come. */
    ghost predicate Fits(row: nat)
      requires row < |rows.items| && 1 <= retainedLimit
      reads this, rows, provider, service
    {
      var kept := Kept(H(), rows.items[row].id);
      Servable(kept) && |kept.retained| <= EffectiveLimit() + 8
    }

    /** Outstanding work once the picture of `row` is at the front. */
    function OutstandingWith(row: nat, n: nat): nat
      requires row < |rows.items|
      reads this, rows
    {
      var ids := [rows.items[row].id] + Without(retained, rows.items[row].id);
      CountIn(ids[Min(n, |ids|)..], Window()) + |index|
    }

    /** The row that waited for `key` shows its picture, and holds it in the provider. */
    method ShowThumbnail(key: RequestKey, image: Image)
      requires Valid({key}) && key in index
      modifies `index, rows`items, provider`images, provider`recency
      ensures provider.Valid() && service.Valid() && Located(rows.items, rowById)
      ensures index == old(index) - {key} && old(index[key]) < |old(rows.items)|
      ensures rows.items == old(rows.items)[old(index[key]) := old(rows.items[index[key]]).(status := Ready, image := Some(image), handle := 0, key := None)]
      ensures Consistent(Kept(H(), rows.items[old(index[key])].id), {})
      ensures Without(retained, rows.items[old(index[key])].id) == retained
      ensures old(Agrees()) ==> Fits(old(index[key]))
    {
      hide Servable, Consistent, Located, Without, Elements, Ids;
      ghost var h := H();
      IndexedRow(h, key);
      if old(Agrees()) {
        SameCounts(h, {key}, provider.recency);
      }
      var row := index[key];
      index := index - {key};
      var item := rows.items[row].(handle := 0, key := None, image := Some(image), status := Ready);
      RowLoads(h, row, item, image);
      LocatedUpdate(rows.items, rowById, row, item);
      rows.items := rows.items[row := item];
      provider.SetImage(item.id, image);
      AnyImages(Loaded(h, row, item, image), {}, provider.images);
    }

    /** What a row leaving the waiting state changes for the window, and what not. */
    lemma AnsweredRow(was: seq<Item>, keys: map<RequestKey, nat>, key: RequestKey, item: Item, n: nat)
      requires key in keys && keys[key] < |was| && rows.items == was[keys[key] := item] && index == keys - {key}
      requires item.id == was[keys[key]].id && item.record == was[keys[key]].record && item.status != Pending
      ensures |rows.items| == |was| && Ids(rows.items) == Ids(was) && |index| == |keys| - 1
      ensures FilledIn(was, FetchFirst(), FetchLast(), library, pathOf) ==> Filled()
      ensures SourcedIn(was, FetchFirst(), FetchLast(), library, pathOf) ==> Sourced()
      ensures FocusedIn(keys, FetchFirst(), FetchLast()) ==> Focused()
      ensures n <= |retained| && Without(retained, item.id) == retained ==>
        OutstandingWith(keys[key], n + 1) == Outstanding(n)
    {
      IdsOfUpdate(was, keys[key], item);
      OneRowChanged(was, keys[key], item, library, pathOf);
      assert index.Keys == keys.Keys - {key};
      assert |keys.Keys| == |keys| && |index.Keys| == |index|;
      assert n <= |retained| ==> ([item.id] + retained)[n + 1..] == retained[n..];
    }

    /** The row that waited for `key` will not get a picture. */
    method FailThumbnail(key: RequestKey, image: Option<Image>, ghost n: nat)
      requires Valid({key}) && key in index && n <= |retained|
      modifies `index, rows`items
      ensures Valid({}) && Ids(rows.items) == old(Ids(rows.items)) && index == old(index) - {key}
      ensures old(index[key]) < |old(rows.items)|
      ensures rows.items == old(rows.items)[old(index[key]) := old(rows.items[index[key]]).(status := Error, image := image, handle := 0, key := None)]
      ensures old(Agrees()) ==> Agrees()
      ensures old(Focused()) ==> Focused()
      ensures old(Filled()) ==> Filled()
      ensures old(Sourced()) ==> Sourced()
      ensures Outstanding(n) == old(Outstanding(n)) - 1
    {
      hide Servable, Consistent, Located, SameSources, HasSource, Without, Ids, CountIn, FilledIn, SourcedIn, FocusedIn;
      IndexedRow(H(), key);
      assert {key} - {key} == {};
      ghost var was, keys := rows.items, index;
      var row := index[key];
      var item := rows.items[row].(handle := 0, key := None, image := image, status := Error);
      RowGivesUp(H(), row, item, {key});
      LocatedUpdate(rows.items, rowById, row, item);
      index := index - {key};
      rows.items := rows.items[row := item];
      AnsweredRow(was, keys, key, item, n);
    }

    /** The row that waited for `key` gets its picture, and the oldest pictures make room for it. */
    method HoldThumbnail(key: RequestKey, image: Image, ghost n: nat)
      requires Valid({key}) && key in index && n <= |retained| && n < EffectiveLimit()
      modifies `retained, `index, rows`items, provider, service
      ensures Valid({}) && Ids(rows.items) == old(Ids(rows.items))
      ensures old(Agrees()) ==> Agrees()
      ensures old(index[key]) < |old(rows.items)| == |rows.items|
      ensures rows.items[old(index[key])] == old(rows.items[index[key]]).(status := Ready, image := Some(image), handle := 0, key := None)
      ensures retained == Trimmed([old(rows.items[index[key]].id)] + old(retained), EffectiveLimit())
      ensures old(Focused()) ==> Focused()
      ensures old(Filled()) ==> Filled()
      ensures Outstanding(n + 1) <= old(Outstanding(n)) - 1
      ensures old(Sourced()) ==> Sourced() && Outstanding(n + 1) == old(Outstanding(n)) - 1
    {
      hide *;
      ValidMeans({key});
      IndexedRow(H(), key);
      WindowMeans(n);
      ghost var was, keys, agreed := rows.items, index, Agrees();
      var row := index[key];
      ShowThumbnail(key, image);
      WindowMeans(n);
      AnsweredRow(was, keys, key, rows.items[row], n);
      HeldNow();
      KeptMeans(H(), rows.items[row].id);
      RetainThumbnail(row, n + 1, agreed);
      TrimmedFits([was[row].id] + old(retained), EffectiveLimit());
      ValidMeans();
      if agreed { AgreesWhen(); }
    }

    /** The service answered a request, or an old answer came late: only an indexed key counts. */
    method OnThumbnailResult(key: RequestKey, image: Option<Image>, ghost n: nat)
      requires Valid({key}) && n <= |retained| && n < EffectiveLimit()
      modifies `retained, `index, rows`items, provider, service
      ensures Valid({}) && Ids(rows.items) == old(Ids(rows.items))
      ensures old(Agrees()) ==> Agrees()
      ensures key !in old(index) ==> H() == old(H())
      ensures key in old(index) ==> old(index[key]) < |rows.items| == |old(rows.items)|
      ensures key in old(index) ==> rows.items[old(index[key])] == Answered(old(rows.items[index[key]]), image)
      ensures key in old(index) && image.Some? ==>
        retained == Trimmed([old(rows.items[index[key]].id)] + old(retained), EffectiveLimit())
      ensures image.None? ==> retained == old(retained)
      ensures old(Focused()) ==> Focused()
      ensures old(Filled()) ==> Filled()
      ensures old(Sourced()) ==> Sourced()
      ensures key in old(index) ==> Outstanding(if image.Some? then n + 1 else n) <= old(Outstanding(n)) - 1
      ensures key in old(index) && old(Sourced()) ==> Outstanding(if image.Some? then n + 1 else n) == old(Outstanding(n)) - 1
    {
      hide Servable, Consistent, Located, Without, SameSources, HasSource, Ids, CountIn, Filled, Sourced, Focused, Outstanding;
      IndexedRow(H(), key);
      if key !in index {
        return;
      }
      if image.Some? {
        HoldThumbnail(key, image.value, n);
      } else {
        FailThumbnail(key, None, n);
      }
    }

    /** A failed request leaves its row in error; a cancelled one leaves everything alone. */
    method OnThumbnailError(key: RequestKey, cancelled: bool, ghost n: nat)
      requires Valid({key}) && n <= |retained|
      modifies `index, rows`items
      ensures !cancelled ==> Valid({})
      ensures Ids(rows.items) == old(Ids(rows.items))
      ensures old(Agrees()) ==> Agrees()
      ensures cancelled || key !in old(index) ==> H() == old(H())
      ensures !cancelled && key in old(index) ==> old(index[key]) < |rows.items| && rows.items[old(index[key])].status == Error
      ensures old(Focused()) ==> Focused()
      ensures old(Filled()) ==> Filled()
      ensures old(Sourced()) ==> Sourced()
      ensures !cancelled && key in old(index) ==> Outstanding(n) == old(Outstanding(n)) - 1
    {
      hide Servable, Consistent, Located, Without, SameSources, HasSource, Ids, CountIn, Filled, Sourced, Focused, Outstanding;
      if cancelled {
        return;
      }
      IndexedRow(H(), key);
      if key !in index {
        return;
      }
      FailThumbnail(key, rows.items[index[key]].image, n);
    }

    // ----- moving the window -----

    /** Cancels every request but those of rows `a` to `b`. */
    method CancelOutside(a: nat, b: int)
      requires Valid({}) && b < |rows.items|
      modifies service`pending
      ensures Valid(OutsideKeys(rows.items, a, b, 0)) && (old(Servable(H())) ==> Servable(H()))
    {
      hide Consistent, Located, Servable, KeepOnly;
      var keep: set<nat> := {};
      for row := a to Max(a, b + 1)
        invariant keep == InsideHandles(rows.items, a, b, row)
      {
        var item := rows.items[row];
        if item.status == Loading && item.handle != 0 {
          keep := keep + {item.handle};
        }
      }
      assert keep == InsideHandles(rows.items, a, b, b + 1);
      CancellingOutside(H(), a, b, keep);
      AnyPending(H(), KeepOnly(service.pending, keep));
      service.CancelAllExcept(keep);
    }

    /** Rows outside `a` to `b` no longer wait. */
    method ResetOutside(a: nat, b: int)
      requires Valid(OutsideKeys(rows.items, a, b, 0)) && a == FetchFirst() && b == FetchLast()
      modifies rows`items, `index
      ensures Valid({}) && (old(Servable(H())) ==> Servable(H()))
      ensures SameSources(old(rows.items), rows.items, library, pathOf) && |rows.items| == |old(rows.items)|
      ensures forall i | 0 <= i < |rows.items| && old(rows.items)[i].status != Loading :: rows.items[i] == old(rows.items)[i]
      ensures forall i | 0 <= i < |rows.items| && rows.items[i].status == Error :: old(rows.items)[i].status == Error
      ensures Focused()
    {
      hide Servable, Consistent, Located, SameSources, OutsideKeys, FocusedIn;
      SameSourcesSelf(rows.items, library, pathOf);
      ghost var items, servable := rows.items, Servable(H());
      for row := 0 to |rows.items|
        invariant |rows.items| == |items| && a == FetchFirst() && b == FetchLast()
        invariant Valid(OutsideKeys(rows.items, a, b, row)) && (servable ==> Servable(H()))
        invariant SameSources(items, rows.items, library, pathOf)
        invariant forall i | 0 <= i < row && !(a <= i <= b) :: rows.items[i].status != Loading
        invariant forall i | 0 <= i < |items| && items[i].status != Loading :: rows.items[i] == items[i]
        invariant forall i | 0 <= i < |items| && rows.items[i].status == Error :: items[i].status == Error
        invariant forall i | row <= i < |items| :: rows.items[i] == items[i]
      {
        var item := rows.items[row];
        if !(a <= row <= b) && item.status == Loading {
          ResettingOutside(H(), a, b, row, Settled(item));
          LocatedUpdate(rows.items, rowById, row, Settled(item));
          OneRowChanged(rows.items, row, Settled(item), library, pathOf);
          SameSourcesTwice(items, rows.items, rows.items[row := Settled(item)], library, pathOf);
          index := index - {item.key.value};
          rows.items := rows.items[row := Settled(item)];
        } else {
          OutsideStep(rows.items, a, b, row);
        }
      }
      NobodyWaitsOutside(H(), OutsideKeys(rows.items, a, b, |rows.items|), a, b);
    }

    /** Every row from `a` to `b` asks for what it misses. */
    method RequestRange(a: nat, b: int)
      requires Valid({}) && a == FetchFirst() && b == FetchLast()
      modifies rows`items, `index, service
      ensures Valid({}) && (old(Servable(H())) ==> Servable(H()))
      ensures SameSources(old(rows.items), rows.items, library, pathOf) && |rows.items| == |old(rows.items)|
      ensures forall i | 0 <= i < |rows.items| && old(rows.items)[i].status != Pending :: rows.items[i] == old(rows.items)[i]
      ensures forall i | 0 <= i < |rows.items| && rows.items[i].status == Error && HasSource(old(rows.items)[i], library, pathOf) ::
        old(rows.items)[i].status == Error
      ensures old(Focused()) ==> Focused()
      ensures Filled()
    {
      hide Servable, Consistent, Located, SameSources, HasSource;
      SameSourcesSelf(rows.items, library, pathOf);
      ghost var items, servable, focused := rows.items, Servable(H()), Focused();
      for row := a to Max(a, b + 1)
        invariant |rows.items| == |items| && a == FetchFirst() && b == FetchLast()
        invariant Valid({}) && (servable ==> Servable(H())) && (focused ==> Focused())
        invariant SameSources(items, rows.items, library, pathOf)
        invariant FilledIn(rows.items, a, row - 1, library, pathOf)
        invariant forall i | 0 <= i < |items| && items[i].status != Pending :: rows.items[i] == items[i]
        invariant forall i | 0 <= i < |items| && rows.items[i].status == Error && HasSource(items[i], library, pathOf) :: items[i].status == Error
        invariant forall i | row <= i < |items| :: rows.items[i] == items[i]
      {
        ghost var before := rows.items;
        RequestThumbnailIfNeeded(row);
        SameSourcesTwice(items, before, rows.items, library, pathOf);
      }
    }

    /** Withdraws the requests of rows outside the window and asks for the rows inside. */
    method ServeWindow()
      requires Valid({}) && 0 <= visibleFirst && 0 <= visibleLast
      modifies `index, rows`items, service
      ensures Valid({}) && (old(Servable(H())) ==> Servable(H()))
      ensures Ids(rows.items) == old(Ids(rows.items)) && |rows.items| == |old(rows.items)|
      ensures SameSources(old(rows.items), rows.items, library, pathOf)
      ensures Focused() && Filled()
      ensures forall i | 0 <= i < |rows.items| && (old(rows.items)[i].status == Ready || old(rows.items)[i].status == Error) ::
        rows.items[i] == old(rows.items)[i]
      ensures forall i | 0 <= i < |rows.items| && rows.items[i].status == Error && HasSource(old(rows.items)[i], library, pathOf) ::
        old(rows.items)[i].status == Error
    {
      hide Servable, Consistent, Located, SameSources, HasSource, OutsideKeys, FilledIn, FocusedIn;
      ghost var items := rows.items;
      CancelOutside(FetchFirst(), FetchLast());
      ResetOutside(FetchFirst(), FetchLast());
      ghost var reset := rows.items;
      RequestRange(FetchFirst(), FetchLast());
      SameSourcesTwice(items, reset, rows.items, library, pathOf);
      SourcesKeepIds(items, rows.items, library, pathOf);
      SourcesKeepSources(items, reset, library, pathOf);
    }

    /** Only the rows, their requests and perhaps the window are different now. */
    ghost predicate SameSettings(before: Sight)
      reads this, rows
    {
      && Ids(rows.items) == Ids(before.items)
      && (prefetchMargin, retainedLimit, size, library) == (before.margin, before.limit, before.size, before.library)
    }

    lemma ShownNow()
      ensures Shown() == Sight(rows.items, service.pending, visibleFirst, visibleLast, prefetchMargin, retainedLimit, size, library)
      ensures SameSettings(Shown())
    {
    }

    lemma SettingsStay(before: Sight)
      requires Ids(rows.items) == Ids(before.items)
      requires (prefetchMargin, retainedLimit, size, library) == (before.margin, before.limit, before.size, before.library)
      ensures SameSettings(before)
    {
    }

    lemma ViewFollows(before: Sight, first: int, last: int)
      requires SameSettings(before)
      requires if before.items == [] then visibleFirst == before.first && visibleLast == before.last
               else visibleFirst == Max(0, Min(first, |before.items| - 1)) && visibleLast == Max(0, Min(last, |before.items| - 1))
      ensures Followed(Viewed(first, last), before, Shown())
    {
    }

    lemma RefreshFollows(before: Sight, row: int)
      requires SameSettings(before) && visibleFirst == before.first && visibleLast == before.last
      requires 0 <= row < |rows.items| && row < |before.items| && before.items[row].status != Loading ==> rows.items[row].image == None
      ensures Followed(Refreshed(row), before, Shown())
    {
    }

    lemma ReloadFollows(before: Sight, ids: seq<Id>)
      requires Ids(rows.items) == ids
      requires (prefetchMargin, retainedLimit, size, library) == (before.margin, before.limit, before.size, before.library)
      ensures Followed(Changed(ids), before, Shown())
    {
    }

    /** The view shows rows `first` to `last`: their thumbnails are asked for, everybody else's requests withdrawn. */
    method SetVisibleRange(first: int, last: int)
      requires Valid({})
      modifies `visibleFirst, `visibleLast, `index, rows`items, provider, service
      ensures Valid({}) && Ids(rows.items) == old(Ids(rows.items))
      ensures |rows.items| == |old(rows.items)| && SameSources(old(rows.items), rows.items, library, pathOf)
      ensures rows.items == [] ==> H() == old(H()) && visibleFirst == old(visibleFirst) && visibleLast == old(visibleLast)
      ensures rows.items != [] ==> Focused() && Filled() && 0 <= visibleFirst < |rows.items| && 0 <= visibleLast < |rows.items|
      ensures rows.items != [] && 0 <= first <= last < |rows.items| ==> visibleFirst == first && visibleLast == last
      ensures rows.items != [] && first <= last ==> visibleFirst <= visibleLast
      ensures rows.items != [] ==> visibleFirst == Max(0, Min(first, |rows.items| - 1)) && visibleLast == Max(0, Min(last, |rows.items| - 1))
      ensures forall i | 0 <= i < |rows.items| && rows.items[i].status == Error && HasSource(old(rows.items)[i], library, pathOf) ::
        old(rows.items)[i].status == Error
      ensures old(Servable(H())) ==> (Servable(H()) <==> rows.items == [] || |retained| <= EffectiveLimit() + 8)
      ensures old(Servable(H())) && old(|retained| + 8 <= provider.capacity) && |retained| <= EffectiveLimit() ==> Agrees()
      ensures old(Servable(H())) && |retained| <= EffectiveLimit() + 8 ==> provider.images == old(provider.images)
      ensures forall i | 0 <= i < |rows.items| && (old(rows.items)[i].status == Ready || old(rows.items)[i].status == Error) ::
        rows.items[i] == old(rows.items)[i]
    {
      hide Servable, Consistent, Located, Elements, Ids, Focused, Filled, FetchFirst, FetchLast, SameSources, HasSource;
      var count := |rows.items|;
      SameSourcesSelf(rows.items, library, pathOf);
      if count == 0 {
        return;
      }
      ghost var h, servable := H(), Servable(H());
      if servable {
        SameCounts(h, {}, provider.recency);
      }
      visibleFirst := Max(0, Min(first, count - 1));
      visibleLast := Max(0, Min(last, count - 1));
      SyncCapacity();
      AnyImages(h, {}, provider.images);
      if servable && provider.images != h.images {
        LostPicture(h, provider.images);
      }
      ServeWindow();
    }

    /** Asks for the thumbnail of a selected row. */
    method RequestThumbnail(row: int)
      requires Valid({})
      modifies rows`items, `index, service
      ensures Valid({}) && (old(Agrees()) ==> Agrees())
      ensures |rows.items| == |old(rows.items)| && Ids(rows.items) == old(Ids(rows.items))
      ensures 0 <= row < |rows.items| && HasSource(old(rows.items)[row], library, pathOf) ==> rows.items[row].status != Pending
      ensures Followed(Selected(row), old(Shown()), Shown())
    {
      hide Servable, Consistent, Located, Ids, HasSource;
      if row < 0 || row >= |rows.items| {
        return;
      }
      ghost var items := rows.items;
      RequestThumbnailIfNeeded(row);
      SourcesKeepIds(items, rows.items, library, pathOf);
    }

    /** Drops what is held for the row and asks again, unless a request is in flight already. */
    method RefreshThumbnail(row: int)
      requires Valid({})
      modifies `retained, `index, rows`items, provider`images, provider`recency, service
      ensures Valid({}) && (old(Agrees()) ==> Agrees())
      ensures |rows.items| == |old(rows.items)| && Ids(rows.items) == old(Ids(rows.items))
      ensures !(0 <= row < |rows.items|) || old(rows.items)[row].status == Loading ==> H() == old(H())
      ensures 0 <= row < |rows.items| && old(rows.items)[row].status != Loading ==>
        rows.items[row].id !in provider.images && rows.items[row].id !in retained && rows.items[row].image == None
      ensures 0 <= row < |rows.items| && HasSource(old(rows.items)[row], library, pathOf) ==> rows.items[row].status == Loading
    {
      hide Servable, Consistent, Located, Ids, Without, Elements;
      if row < 0 || row >= |rows.items| || rows.items[row].status == Loading {
        return;
      }
      ForgetThumbnail(row);
      ghost var forgotten := rows.items;
      RequestThumbnailIfNeeded(row);
      SourcesKeepIds(forgotten, rows.items, library, pathOf);
    }

    /** Drops what is held for the row, which goes back to pending. */
    method ForgetThumbnail(row: nat)
      requires Valid({}) && row < |rows.items| && rows.items[row].status != Loading
      modifies `retained, rows`items, provider`images, provider`recency
      ensures Valid({}) && (old(Servable(H())) ==> Servable(H()))
      ensures rows.items == old(rows.items)[row := old(rows.items[row]).(status := Pending, image := None)]
      ensures Ids(rows.items) == old(Ids(rows.items))
      ensures retained == Without(old(retained), rows.items[row].id) && rows.items[row].id !in retained && |retained| <= |old(retained)|
      ensures provider.images == old(provider.images) - {rows.items[row].id}
    {
      hide Servable, Consistent, Located, Ids, Without, Elements, Distinct;
      var id := rows.items[row].id;
      ghost var items := rows.items;
      LettingGo(H(), rowById, id, {});
      LocatedRow(rows.items, rowById, row);
      WithoutElement(retained, id);
      retained := Without(retained, id);
      ReleaseThumbnail(id);
      var item := rows.items[row].(status := Pending);
      RowSettles(H(), row, item, {});
      LocatedUpdate(rows.items, rowById, row, item);
      rows.items := rows.items[row := item];
      IdsOfUpdate(items, row, rows.items[row]);
    }

    method SetPrefetchMargin(margin: int)
      requires Valid({})
      modifies `prefetchMargin
      ensures Valid({}) && prefetchMargin == Max(0, margin)
      ensures Followed(Margined(margin), old(Shown()), Shown())
      ensures old(Agrees()) && EffectiveLimit() >= old(EffectiveLimit()) ==> Agrees()
    {
      prefetchMargin := Max(0, margin);
    }

    /** A new size makes every held picture worthless; what the view shows is asked for again. */
    method SetThumbnailSize(newSize: nat)
      requires Valid({})
      modifies `size, `retained, `index, `visibleFirst, `visibleLast, rows`items, provider, service
      ensures Valid({}) && (newSize > 0 ==> size == newSize)
      ensures newSize == 0 || newSize == old(size) ==> H() == old(H()) && size == old(size)
      ensures Followed(Resized(newSize), old(Shown()), Shown())
      ensures newSize > 0 && newSize != old(size) && rows.items != [] ==> retained == [] && provider.images == map[] && Agrees()
      ensures newSize > 0 && newSize != old(size) && rows.items != [] && 0 <= old(visibleFirst) <= old(visibleLast) ==>
        Focused() && Filled() && 0 <= visibleFirst <= visibleLast < |rows.items|
      ensures newSize > 0 && newSize != old(size) && rows.items != [] && !(0 <= old(visibleFirst) <= old(visibleLast)) ==> index == map[]
      ensures Ids(rows.items) == old(Ids(rows.items))
      ensures old(Agrees()) ==> Agrees()
    {
      hide Servable, Consistent, Located, Ids, Focused, Filled;
      if newSize == 0 || newSize == size {
        return;
      }
      size := newSize;
      InvalidateThumbnails();
    }

    /** Withdraws every request and lets go of every picture. */
    method ClearThumbnails()
      requires Valid({})
      modifies `retained, `index, rows`items, provider`images, provider`recency, service`pending
      ensures Valid({}) && Servable(H()) && Ids(rows.items) == old(Ids(rows.items)) && |rows.items| == |old(rows.items)|
      ensures retained == [] && provider.images == map[] && index == map[] && service.pending == map[]
      ensures rows.items == AllCleared(old(rows.items))
    {
      hide Servable, Consistent, Located, Ids, Elements, Distinct, AllCleared, KeepOnly;
      ClearedAgrees(H(), rowById);
      NoneKept(service.pending);
      service.CancelAllExcept({});
      provider.Clear();
      index, retained := map[], [];
      NothingHeld();
      ClearRows();
    }

    method ClearRows()
      modifies rows`items
      ensures rows.items == AllCleared(old(rows.items))
    {
      ghost var items := rows.items;
      for row := 0 to |rows.items|
        invariant |rows.items| == |items|
        invariant forall i | 0 <= i < row :: rows.items[i] == Cleared(items[i])
        invariant forall i | row <= i < |items| :: rows.items[i] == items[i]
      {
        rows.items := rows.items[row := Cleared(rows.items[row])];
      }
    }

    method InvalidateThumbnails()
      requires Valid({})
      modifies `retained, `index, `visibleFirst, `visibleLast, rows`items, provider, service
      ensures Valid({}) && Ids(rows.items) == old(Ids(rows.items))
      ensures rows.items == [] ==> H() == old(H()) && (old(Agrees()) ==> Agrees())
      ensures rows.items != [] ==> retained == [] && provider.images == map[] && Agrees()
      // No row keeps a picture or its failure, and what the view shows is asked for again.
      ensures forall i | 0 <= i < |rows.items| ::
        rows.items[i].status != Ready && (rows.items[i].status == Error ==> !HasSource(rows.items[i], library, pathOf))
      ensures rows.items != [] && 0 <= old(visibleFirst) <= old(visibleLast) ==>
        Focused() && Filled() && 0 <= visibleFirst <= visibleLast < |rows.items|
      ensures rows.items != [] && !(0 <= old(visibleFirst) <= old(visibleLast)) ==> index == map[]
    {
      hide Servable, Consistent, Located, Ids, Elements, Focused, Filled, SameSources, HasSource;
      if rows.items == [] {
        return;
      }
      ClearThumbnails();
      ghost var cleared := rows.items;
      if 0 <= visibleFirst <= visibleLast {
        SetVisibleRange(visibleFirst, visibleLast);
        SourcesKeepSources(cleared, rows.items, library, pathOf);
      }
      NothingReady(H());
    }

    /** Lets go of the least recently loaded thumbnails until the limit is met. */
    method ReleaseBeyondLimit()
      requires Valid({})
      modifies `retained, rows`items, provider`images, provider`recency
      ensures Valid({}) && (old(Lossy(H())) ==> Lossy(H())) && retained == Trimmed(old(retained), EffectiveLimit())
      ensures provider.images == old(provider.images) - Elements(old(retained)[|retained|..])
      ensures |old(retained)| <= EffectiveLimit() ==> rows.items == old(rows.items)
      ensures Ids(rows.items) == old(Ids(rows.items))
    {
      hide Servable, Consistent, Located, Elements, Without, Lossy, Ids, Distinct;
      ghost var ids, images, limit, lossy := retained, provider.images, EffectiveLimit(), Lossy(H());
      assert ids[|ids|..] == [];
      NothingHeld();
      while |retained| > EffectiveLimit()
        invariant Valid({}) && (lossy ==> Lossy(H())) && EffectiveLimit() == limit
        invariant |retained| <= |ids| && retained == ids[..|retained|] && |retained| >= Min(limit, |ids|)
        invariant provider.images == images - Elements(ids[|retained|..])
        invariant |ids| <= limit ==> rows.items == old(rows.items)
        invariant Ids(rows.items) == old(Ids(rows.items))
        decreases |retained|
      {
        var last := retained[|retained| - 1];
        DistinctRetained(H(), {});
        LettingGo(H(), rowById, last, {});
        if lossy { LossyRelease(H(), rowById, last); }
        WithoutLast(retained);
        OneMoreDropped(ids, |retained|);
        retained := retained[..|retained| - 1];
        WithoutPictureIds(rows.items, rowById, last);
        ReleaseThumbnail(last);
      }
    }

    /**
     * A lower limit resizes the provider first, which drops by last use, and then lets go by load
     * time. The two agree exactly when the retained pictures are among those the provider kept.
     */
    method SetRetainedThumbnailLimit(limit: int)
      requires Valid({})
      modifies `retained, `retainedLimit, rows`items, provider
      ensures retainedLimit == Max(1, limit) && EffectiveLimit() >= 1
      ensures Valid({}) && retained == Trimmed(old(retained), EffectiveLimit())
      ensures |old(retained)| <= EffectiveLimit() ==> rows.items == old(rows.items)
      ensures Ids(rows.items) == old(Ids(rows.items))
      ensures old(Servable(H())) ==>
        (Servable(H()) <==> forall id | id in retained :: id in Trimmed(old(provider.recency), EffectiveLimit() + 8))
      ensures old(Agrees()) && |old(retained)| <= EffectiveLimit() + 8 ==> Agrees()
      ensures Followed(Limited(limit), old(Shown()), Shown())
    {
      hide Servable, Consistent, Located, Elements, Lossy, Ids, Distinct;
      ghost var h, servable := H(), Servable(H());
      ServableIsLossless(h);
      if servable {
        SameCounts(h, {}, provider.recency);
        RetainedAreRecent(h, provider.recency);
      }
      retainedLimit := Max(1, limit);
      SyncCapacity();
      AnyImages(h, {}, provider.images);
      if servable { LosingPictures(h, provider.images); }
      ghost var recency, images := provider.recency, provider.images;
      ReleaseBeyondLimit();
      DistinctRetained(h, {});
      assert retained == h.retained[..|retained|];
      KeptPictures(h.retained, |retained|, recency, images, provider.images);
      ServableIsLossless(H());
    }

    // ----- reloading -----

    method RebuildRowIndex()
      requires Distinct(Ids(rows.items))
      modifies `rowById
      ensures Located(rows.items, rowById) && rowById.Keys == Elements(Ids(rows.items))
    {
      var items := rows.items;
      var located: map<Id, nat> := map[];
      for row := 0 to |items|
        invariant forall i | 0 <= i < row :: items[i].id in located && located[items[i].id] == i
        invariant forall id | id in located :: located[id] < row && items[located[id]].id == id
      {
        OtherIds(items, row);
        located := located[items[row].id := row];
      }
      rowById := located;
      forall id ensures id in rowById <==> id in Ids(items) {
        if id in rowById { assert Ids(items)[rowById[id]] == id; }
      }
    }

    /** Rows that are gone take their held thumbnails with them. */
    method PruneRetained()
      requires provider.Valid()
      modifies `retained, provider`images, provider`recency
      ensures provider.Valid() && retained == Only(old(retained), rowById.Keys)
      ensures provider.images == old(provider.images) - (Elements(old(retained)) - rowById.Keys)
    {
      ghost var images := provider.images;
      var ids, kept: seq<Id> := retained, [];
      for i := 0 to |ids|
        invariant provider.Valid() && kept == Only(ids[..i], rowById.Keys)
        invariant provider.images == images - (Elements(ids[..i]) - rowById.Keys)
      {
        assert ids[..i + 1][..i] == ids[..i];
        assert Elements(ids[..i + 1]) == Elements(ids[..i]) + {ids[i]};
        if ids[i] in rowById {
          kept := kept + [ids[i]];
        } else {
          provider.RemoveImage(ids[i]);
        }
      }
      assert ids[..|ids|] == ids;
      retained := kept;
    }

    /** Replaces the rows: every request is withdrawn, and rows that are gone let go of their pictures. */
    method ReplaceRows(ids: seq<Id>) returns (insertionOnly: bool)
      requires Valid({}) && Distinct(ids)
      modifies `retained, `index, `rowById, rows, provider`images, provider`recency, service`pending
      ensures Valid({}) && H() == Reloaded(old(H()), Rebuilt(old(rows.items), ids), ids)
      ensures rows.items == Rebuilt(old(rows.items), ids) && retained == Only(old(retained), Elements(ids))
      ensures index == map[] && service.pending == map[]
      ensures insertionOnly <==> IsSubsequence(old(Ids(rows.items)), ids)
      ensures old(Servable(H())) ==> Servable(H())
      ensures |retained| <= |old(retained)|
    {
      hide Servable, Consistent, Located, Elements, Only, IsSubsequence, Rebuilt, KeepOnly, Ids;
      ghost var h := H();
      ConsistentIds(h, {});
      ReloadIsConsistent(h, ids, {});
      RebuiltIds(h.items, ids);
      if old(Servable(H())) { ReloadIsServable(h, ids); }
      NoneKept(service.pending);
      OnlyThose(retained, Elements(ids));
      service.CancelAllExcept({});
      index := map[];
      insertionOnly := rows.Reload(ids);
      RebuildRowIndex();
      PruneRetained();
    }

    /** Where the window is after a reload: it follows its ends if rows were only inserted. */
    method FindWindow(ids: seq<Id>, insertionOnly: bool, firstId: Option<Id>, lastId: Option<Id>, ghost was: seq<Item>)
      returns (first: int, last: int)
      requires Located(rows.items, rowById) && Ids(rows.items) == ids
      requires insertionOnly ==> IsSubsequence(Ids(was), ids)
      requires firstId == if 0 <= visibleFirst < |was| then Some(was[visibleFirst].id) else None
      requires lastId == if 0 <= visibleLast < |was| then Some(was[visibleLast].id) else None
      ensures 0 <= visibleFirst <= visibleLast <==> 0 <= first <= last
      ensures insertionOnly && 0 <= visibleFirst <= visibleLast < |was| ==>
        0 <= first <= last < |ids| && ids[first] == was[visibleFirst].id && ids[last] == was[visibleLast].id
    {
      first, last := visibleFirst, visibleLast;
      if insertionOnly {
        WindowFollows(was, rows.items, rowById, ids);
        if firstId.Some? && lastId.Some? {
          first := if firstId.value in rowById then rowById[firstId.value] else first;
          last := if lastId.value in rowById then rowById[lastId.value] else last;
        }
      }
    }

    /** Asks again for what the view is looking at, if it looks at anything. */
    method LookAgain(first: int, last: int)
      requires Valid({})
      modifies `visibleFirst, `visibleLast, `index, rows`items, provider, service
      ensures Valid({}) && Ids(rows.items) == old(Ids(rows.items)) && |rows.items| == |old(rows.items)|
      ensures old(Servable(H())) && |retained| <= EffectiveLimit() + 8 ==> Servable(H())
      ensures old(Servable(H())) && old(|retained| + 8 <= provider.capacity) && |retained| <= EffectiveLimit() ==> Agrees()
      ensures rows.items == [] ==> visibleFirst == visibleLast == -1
      ensures 0 <= first <= last < |rows.items| ==> visibleFirst == first && visibleLast == last
      ensures rows.items != [] && 0 <= first <= last ==> Focused() && Filled() && 0 <= visibleFirst <= visibleLast < |rows.items|
      ensures rows.items == [] || !(0 <= first <= last) ==> index == old(index)
      ensures forall i | 0 <= i < |rows.items| && (old(rows.items)[i].status == Ready || old(rows.items)[i].status == Error) ::
        rows.items[i] == old(rows.items)[i]
    {
      hide Servable, Consistent, Ids, Located, Filled, Focused;
      if rows.items == [] {
        visibleFirst, visibleLast := -1, -1;
        return;
      }
      if 0 <= first <= last {
        SetVisibleRange(first, last);
      }
    }

    /** Shows the ids the projection has now, and asks again for what the view is looking at. */
    method Reload(ids: seq<Id>)
      requires Valid({}) && Distinct(ids)
      modifies `retained, `index, `rowById, `visibleFirst, `visibleLast, rows, provider, service
      ensures Valid({}) && Ids(rows.items) == ids
      ensures old(Servable(H())) && |retained| <= EffectiveLimit() + 8 ==> Servable(H())
      ensures old(Agrees()) && |retained| <= EffectiveLimit() ==> Agrees()
      ensures retained == Only(old(retained), Elements(ids)) && |retained| <= |old(retained)|
      ensures forall i | 0 <= i < |ids| && (Rebuilt(old(rows.items), ids)[i].status == Ready || Rebuilt(old(rows.items), ids)[i].status == Error) ::
        rows.items[i] == Rebuilt(old(rows.items), ids)[i]
      // What the view looks at is asked for again, and nothing else is in flight.
      ensures rows.items != [] && 0 <= old(visibleFirst) <= old(visibleLast) ==>
        Focused() && Filled() && 0 <= visibleFirst <= visibleLast < |rows.items|
      ensures rows.items == [] || !(0 <= old(visibleFirst) <= old(visibleLast)) ==> index == map[] && service.pending == map[]
      ensures IsSubsequence(old(Ids(rows.items)), ids) && 0 <= old(visibleFirst) <= old(visibleLast) < |old(rows.items)| ==>
        SameWindow(old(rows.items), old(visibleFirst), old(visibleLast), ids, visibleFirst, visibleLast)
    {
      hide Servable, Consistent, Elements, Only, IsSubsequence, Rebuilt, Ids, Located, Filled, Focused, Distinct;
      ghost var was := rows.items;
      var firstId := if 0 <= visibleFirst < |rows.items| then Some(rows.items[visibleFirst].id) else None;
      var lastId := if 0 <= visibleLast < |rows.items| then Some(rows.items[visibleLast].id) else None;
      RebuiltIds(was, ids);
      var insertionOnly := ReplaceRows(ids);
      if insertionOnly { SubsequenceIsShorter(Ids(was), ids); }
      var first, last := FindWindow(ids, insertionOnly, firstId, lastId, was);
      LookAgain(first, last);
      ValidMeans();
      NothingOpen(H());
    }

    // ----- runs -----

    /** The answer to an open request is passed on to the row that waits for it. */
    method Answer(key: RequestKey, answer: Answer, ghost n: nat)
      requires Valid({key}) && key in index && n <= |retained| && n < EffectiveLimit()
      modifies `retained, `index, rows`items, provider, service
      ensures Valid({}) && Ids(rows.items) == old(Ids(rows.items)) && old(index[key]) < |rows.items| == |old(rows.items)|
      ensures old(Agrees()) ==> Agrees()
      ensures old(Focused()) ==> Focused()
      ensures old(Filled()) ==> Filled()
      ensures old(Sourced()) ==> Sourced()
      ensures rows.items[old(index[key])].status == if answer.Picture? then Ready else Error
      ensures !answer.Picture? ==> retained == old(retained)
      ensures answer.Picture? ==> retained == Trimmed([old(rows.items[index[key]].id)] + old(retained), EffectiveLimit())
      ensures Outstanding(if answer.Picture? then n + 1 else n) <= old(Outstanding(n)) - 1
      ensures old(Sourced()) ==> Outstanding(if answer.Picture? then n + 1 else n) == old(Outstanding(n)) - 1
    {
      hide Servable, Consistent, Located, SameSources, HasSource, Ids, CountIn, Filled, Sourced, Focused, Trimmed, Distinct, Outstanding;
      match answer
      case Picture(image) => OnThumbnailResult(key, Some(image), n);
      case NoPicture => OnThumbnailResult(key, None, n);
      case Failure =>
        OnThumbnailError(key, false, n);
    }

    /** An open request is indexed, under the key of the loading row that holds its handle. */
    lemma AllOpen(h: Held)
      requires Consistent(h, {})
      ensures forall t | t in h.pending :: h.pending[t] in h.index && h.index[h.pending[t]] < |h.items|
      ensures forall t, i | t in h.pending && 0 <= i < |h.items| && h.items[i].status == Loading && h.items[i].handle == t ::
        h.index[h.pending[t]] == i
    {
    }

    /** A worker's answer arrives; if its request was cancelled in the meantime nothing happens. */
    method Deliver(handle: nat, answer: Answer, ghost n: nat)
      requires Valid({}) && n <= |retained| && n < EffectiveLimit()
      modifies `retained, `index, rows`items, provider, service
      ensures Valid({}) && Ids(rows.items) == old(Ids(rows.items))
      ensures old(Agrees()) ==> Agrees()
      ensures handle !in old(service.pending) ==> H() == old(H())
      ensures handle in old(service.pending) ==> var row := old(index)[old(service.pending)[handle]];
        row < |rows.items| == |old(rows.items)| && rows.items[row].status == if answer.Picture? then Ready else Error
      ensures Followed(Delivered(handle, answer), old(Shown()), Shown())
    {
      hide Servable, Consistent, Located, SameSources, HasSource, Ids, CountIn, Filled, Sourced, Focused, Trimmed, Distinct, Outstanding;
      AllOpen(H());
      if handle in service.pending {
        Delivering(H(), handle);
        AnyPending(H(), service.pending - {handle});
      }
      var request := service.Deliver(handle);
      if request.Some? {
        Answer(request.value, answer, n);
      } else {
        assert service.pending == old(service.pending);
      }
    }

    /** The `n` most recently loaded pictures are the window's own, so there is room for one more. */
    ghost predicate Own(n: nat)
      reads `retained, `visibleFirst, `visibleLast, `prefetchMargin, rows`items
    {
      n <= |retained| && forall x | x in retained[..n] :: x in Window()
    }

    /** The row that is answered is not among them, so that where the window fits there is room for it. */
    lemma OwnFit(n: nat, id: Id)
      requires 1 <= retainedLimit && |Window()| <= EffectiveLimit()
      requires Own(n) && Distinct(retained) && id in Window() && id !in retained
      ensures n < EffectiveLimit()
    {
      DistinctInWindow(retained[..n], Window() - {id});
    }

    /** The rows of a window that is not shown backwards always fit into the limit. */
    lemma WindowFits()
      requires 1 <= retainedLimit && 0 <= visibleFirst <= visibleLast
      ensures |Window()| <= EffectiveLimit()
    {
      WindowSize(Ids(rows.items), FetchFirst(), FetchLast());
    }

    lemma OneMoreOwn(n: nat, id: Id, was: seq<Id>)
      requires n <= |was| && (forall x | x in was[..n] :: x in Window()) && id in Window()
      requires 1 <= retainedLimit && n < EffectiveLimit() && retained == Trimmed([id] + was, EffectiveLimit())
      ensures Own(n + 1)
    {
      assert retained[..n + 1] == [id] + was[..n];
    }

    lemma CoveredInWindow(row: nat)
      requires row < |rows.items| && Covered(row)
      ensures rows.items[row].id in Window()
    {
      assert Ids(rows.items)[row] == rows.items[row].id;
    }

    /** One open request of the window is answered, whatever the provider holds and however much is retained. */
    method SettleOne(handle: nat, answer: Answer, ghost n: nat) returns (ghost m: nat)
      requires Valid({}) && Focused() && Filled() && |Window()| <= EffectiveLimit() && Own(n)
      requires handle in service.pending
      modifies `retained, `index, rows`items, provider, service
      ensures Valid({}) && Focused() && Filled() && Window() == old(Window()) && Own(m) && Ids(rows.items) == old(Ids(rows.items))
      ensures old(Sourced()) ==> Sourced()
      ensures old(Agrees()) ==> Agrees()
      ensures Outstanding(m) <= old(Outstanding(n)) - 1
      ensures old(Sourced()) ==> Outstanding(m) == old(Outstanding(n)) - 1
    {
      hide Servable, Consistent, Located, SameSources, HasSource, Ids, CountIn, Filled, Sourced, Trimmed, Distinct, Outstanding, WindowOf;
      Delivering(H(), handle);
      AnyPending(H(), service.pending - {handle});
      ghost var was, window := retained, Window();
      var request := service.Deliver(handle);
      ghost var row := index[request.value];
      IndexedRow(H(), request.value);
      CoveredInWindow(row);
      ghost var id := rows.items[row].id;
      WaitingIsNotRetained(H(), {request.value}, row);
      OwnFit(n, id);
      Answer(request.value, answer, n);
      assert Window() == window;
      m := n;
      if answer.Picture? {
        m := n + 1;
        OneMoreOwn(n, id, was);
      }
    }

    /**
     * Evicting, asking again and evicting again comes to an end where the window fits into the
     * limit: after at most as many answers as there is outstanding work, nothing is in flight and no
     * covered row is left without an answer.
     */
    method Settle(answers: RequestKey -> Answer) returns (ghost answered: nat)
      requires Valid({}) && Focused() && Filled() && |Window()| <= EffectiveLimit()
      modifies `retained, `index, rows`items, provider, service
      ensures Valid({}) && index == map[] && service.pending == map[]
      ensures old(Agrees()) ==> Agrees()
      ensures answered <= old(Outstanding(0))
      ensures Ids(rows.items) == old(Ids(rows.items))
      ensures forall i | 0 <= i < |rows.items| && Covered(i) && HasSource(rows.items[i], library, pathOf) ::
        rows.items[i].status == Ready || rows.items[i].status == Error
    {
      hide Servable, Consistent, Located, HasSource, Ids, CountIn, Filled, Focused, Outstanding, Window, Covered;
      answered := 0;
      ghost var n, ids, agreed := 0, Ids(rows.items), Agrees();
      while service.pending != map[]
        invariant Valid({}) && Focused() && Filled() && |Window()| <= EffectiveLimit() && Own(n) && Ids(rows.items) == ids
        invariant agreed ==> Agrees()
        invariant answered + Outstanding(n) <= old(Outstanding(0))
        decreases Outstanding(n)
      {
        var handle :| handle in service.pending;
        n := SettleOne(handle, answers(service.pending[handle]), n);
        answered := answered + 1;
      }
      NothingOpen(H());
      FilledMeansAnswered();
    }

    lemma FilledMeansAnswered()
      requires Filled() && forall i | 0 <= i < |rows.items| :: rows.items[i].status != Loading
      ensures forall i | 0 <= i < |rows.items| && Covered(i) && HasSource(rows.items[i], library, pathOf) ::
        rows.items[i].status == Ready || rows.items[i].status == Error
    {
    }

    /** Rows 1 to 0, with a margin, are both rows. */
    lemma BothCovered(was: seq<Item>, ids: seq<Id>)
      requires |ids| == 2 && Distinct(ids) && was == seq(2, i requires 0 <= i < 2 => NewItem(ids[i]))
      requires forall i | 0 <= i < 2 :: HasSource(was[i], library, pathOf)
      requires |rows.items| == 2 && SameSources(was, rows.items, library, pathOf)
      requires forall i | 0 <= i < 2 && rows.items[i].status == Error && HasSource(was[i], library, pathOf) :: was[i].status == Error
      requires visibleFirst == 1 && visibleLast == 0 && prefetchMargin == 20
      ensures Sourced() && Untroubled() && |Window()| == 2
    {
      hide HasSource;
      assert FetchFirst() == 0 && FetchLast() == 1;
      assert Ids(rows.items) == Ids(was) == ids;
      assert Window() == {ids[0], ids[1]};
    }

    /** Every row is asked for, whatever the view shows. */
    method AskForAll()
      requires Valid({}) && Agrees() && index == map[]
      requires forall i | 0 <= i < |rows.items| :: rows.items[i].status == Pending && HasSource(rows.items[i], library, pathOf)
      modifies rows`items, `index, service
      ensures Valid({}) && Agrees() && |rows.items| == |old(rows.items)| == |index|
    {
      hide *;
      ValidMeans();
      AgreesMeans();
      ghost var items := rows.items;
      for row := 0 to |rows.items|
        invariant Valid({}) && Servable(H()) && |rows.items| == |items| && |index| == row
        invariant forall i | row <= i < |items| :: rows.items[i] == items[i]
      {
        RequestThumbnailIfNeeded(row);
      }
      ValidMeans();
      AgreesWhen();
    }

    /** Every open request is answered with a picture; with no window and room for all nothing is evicted. */
    method AnswerAll(count: nat, image: Image)
      requires Valid({}) && Agrees() && |index| == count <= 500 && retained == []
      requires visibleFirst == visibleLast == -1 && retainedLimit == 512
      modifies `retained, `index, rows`items, provider, service
      ensures Valid({}) && Agrees() && |retained| == count && |rows.items| == |old(rows.items)|
    {
      hide *;
      ghost var n := 0;
      while service.pending != map[]
        invariant Valid({}) && Agrees() && |retained| == n && n + |index| == count
        invariant |rows.items| == |old(rows.items)|
        decreases |index|
      {
        ValidMeans();
        LimitIs();
        NoWindow(n);
        var handle :| handle in service.pending;
        Delivering(H(), handle);
        AnyPending(H(), service.pending - {handle});
        AgreesMeans();
        ghost var was := retained;
        var request := service.Deliver(handle);
        ValidWhen({request.value});
        AgreesWhen();
        NoWindow(n);
        Answer(request.value, Picture(image), n);
        TrimmedIs(was, EffectiveLimit());
        NoWindow(n + 1);
        n := n + 1;
      }
      ValidMeans();
      NothingOpen(H());
    }

    /** While no window is shown, only requests in flight are outstanding. */
    lemma NoWindow(n: nat)
      requires visibleFirst == visibleLast == -1
      ensures Outstanding(n) == |index| && Sourced()
    {
      assert Window() == {};
      CountNone(retained[Min(n, |retained|)..]);
    }

    /** The view paints a picture, which counts as its last use. */
    method Paint(id: Id)
      requires Valid({})
      modifies provider`recency
      ensures Valid({}) && H() == old(H()) && (old(Agrees()) ==> Agrees())
      ensures Followed(Painted(id), old(Shown()), Shown())
    {
      var image := provider.RequestImage(id);
    }

    method Apply(event: Event)
      requires Valid({}) && (event.Changed? ==> Distinct(event.ids))
      modifies this, rows, provider, service
      ensures Valid({})
      ensures old(Agrees()) && EffectiveLimit() >= old(EffectiveLimit()) ==> Agrees()
      ensures Followed(event, old(Shown()), Shown())
    {
      hide Servable, Consistent, Located, HasSource, Ids, Filled, Focused, Rebuilt, IsSubsequence, SameWindow, Only, Elements, Trimmed, Without, Followed, Shown,
           SameSettings;
      ShownNow();
      ghost var before := Shown();
      match event
      case Delivered(handle, answer) => Deliver(handle, answer, 0);
      case Viewed(first, last) =>
        SetVisibleRange(first, last);
        SettingsStay(before);
        ViewFollows(before, first, last);
      case Limited(limit) => SetRetainedThumbnailLimit(limit);
      case Margined(margin) => SetPrefetchMargin(margin);
      case Resized(newSize) => SetThumbnailSize(newSize);
      case Selected(row) => RequestThumbnail(row);
      case Refreshed(row) =>
        RefreshThumbnail(row);
        SettingsStay(before);
        RefreshFollows(before, row);
      case Changed(ids) =>
        Reload(ids);
        ReloadFollows(before, ids);
      case Painted(id) => Paint(id);
      case Stored(records) => LoadFrom(records);
    }

    /**
     * Over every run in which the effective retention limit never drops, the provider serves
     * exactly the rows that are ready, which are the retained ones and within the limit. `trace`
     * shows what each event did.
     */
    method Run(events: seq<Event>) returns (neverDropped: bool, ghost trace: seq<Sight>)
      requires Valid({})
      requires forall e | e in events && e.Changed? :: Distinct(e.ids)
      modifies this, rows, provider, service
      ensures Valid({}) && RetainedAreReady(H())
      ensures old(Agrees()) && neverDropped ==> Agrees()
      ensures |trace| == |events| + 1 && trace[0] == old(Shown()) && trace[|events|] == Shown()
      ensures forall i | 0 <= i < |events| :: Followed(events[i], trace[i], trace[i + 1])
    {
      hide Servable, Consistent, Located, Followed;
      neverDropped, trace := true, [Shown()];
      for i := 0 to |events|
        invariant Valid({}) && (old(Agrees()) && neverDropped ==> Agrees())
        invariant |trace| == i + 1 && trace[0] == old(Shown()) && trace[i] == Shown()
        invariant forall k | 0 <= k < i :: Followed(events[k], trace[k], trace[k + 1])
      {
        var limit := EffectiveLimit();
        Apply(events[i]);
        neverDropped := neverDropped && EffectiveLimit() >= limit;
        trace := trace + [Shown()];
      }
      ConsistentIds(H(), {});
    }

    /**
     * After any run, also one that narrowed the window or the limit, a view that shows rows `first`
     * to `last` comes to rest: each of them with something to ask for is ready or has failed.
     */
    method RunAndSettle(events: seq<Event>, first: int, last: int, answers: RequestKey -> Answer)
      requires Valid({}) && first <= last
      requires forall e | e in events && e.Changed? :: Distinct(e.ids)
      modifies this, rows, provider, service
      ensures Valid({}) && RetainedAreReady(H())
      ensures rows.items != [] ==> index == map[] && service.pending == map[]
      ensures forall i | 0 <= i < |rows.items| && Covered(i) && HasSource(rows.items[i], library, pathOf) ::
        rows.items[i].status == Ready || rows.items[i].status == Error
    {
      hide *;
      var neverDropped, trace := Run(events);
      SetVisibleRange(first, last);
      if rows.items != [] {
        ValidMeans();
        WindowFits();
        var answered := Settle(answers);
      }
      ValidMeans();
      ConsistentIds(H(), {});
    }

    /** A reload, too, is followed by rest: what it withdrew of the window was asked for again. */
    method ReloadAndSettle(ids: seq<Id>, answers: RequestKey -> Answer)
      requires Valid({}) && Distinct(ids)
      modifies this, rows, provider, service
      ensures Valid({}) && Ids(rows.items) == ids && index == map[] && service.pending == map[]
      ensures ids != [] && 0 <= old(visibleFirst) <= old(visibleLast) ==> 0 <= visibleFirst <= visibleLast < |rows.items|
      ensures 0 <= old(visibleFirst) <= old(visibleLast) ==>
        forall i | 0 <= i < |rows.items| && Covered(i) && HasSource(rows.items[i], library, pathOf) ::
          rows.items[i].status == Ready || rows.items[i].status == Error
    {
      hide *;
      var shown := 0 <= visibleFirst <= visibleLast;
      Reload(ids);
      IdsCount(rows.items);
      if rows.items != [] && shown {
        ValidMeans();
        WindowFits();
        var answered := Settle(answers);
        IdsCount(rows.items);
      }
    }

    /** No covered row has failed. */
    ghost predicate Untroubled()
      reads `visibleFirst, `visibleLast, `prefetchMargin, rows`items
    {
      forall i | 0 <= i < |rows.items| && Covered(i) :: rows.items[i].status != Error
    }

    /** Who waits in a window that is filled and has no failures: the covered rows that are not retained. */
    lemma RowsInWindow()
      requires Valid({}) && Focused() && Filled() && Sourced() && Untroubled()
      ensures Waiting(index) == Window() - Elements(retained)
    {
      hide *;
      ValidMeans();
      WindowMeans(0);
      ghost var h, a, b := H(), FetchFirst(), FetchLast();
      forall id
        ensures id in Waiting(index) <==> id in Window() - Elements(retained)
      {
        InWindow(rows.items, rowById, a, b, id);
        IsWaiting(index, id);
        if id in Waiting(index) {
          var k :| k in index && k.id == id;
          WaitingRow(h, rowById, k);
          FocusedMeans(index, a, b, k);
        } else if id in rowById && a <= rowById[id] <= b && id !in Elements(retained) {
          UntroubledRow(rowById[id]);
          WaitsInRow(h, rowById, id);
        }
      }
    }

    /** A covered row either shows its picture or waits for it. */
    lemma UntroubledRow(row: nat)
      requires Located(rows.items, rowById) && Filled() && Sourced() && Untroubled()
      requires FetchFirst() <= row <= FetchLast()
      ensures row < |rows.items| ==> rows.items[row].status == Ready || rows.items[row].status == Loading
    {
      hide HasSource;
    }

    /** Then every covered row is retained or waits, and that is all the outstanding work. */
    lemma OutstandingRows()
      requires Valid({}) && Focused() && Filled() && Sourced() && Untroubled()
      ensures Outstanding(0) == |Window()|
    {
      hide *;
      ValidMeans();
      RowsInWindow();
      DistinctRetained(H(), {});
      CountIsSize(retained, Window());
      WindowMeans(0);
      assert retained[0..] == retained;
      WaitersAreDistinct(H());
      OwnIds(index);
      Parts(Window(), Elements(retained));
    }

    /** An open request of the window is answered with a picture: nothing is gained, a row is retained and another may wait. */
    method PictureFor(handle: nat, image: Image)
      requires Valid({}) && Focused() && Filled() && Sourced() && handle in service.pending
      modifies `retained, `index, rows`items, provider, service
      ensures Valid({}) && Focused() && Filled() && Sourced() && Ids(rows.items) == old(Ids(rows.items))
      ensures Window() == old(Window()) && Outstanding(0) == old(Outstanding(0)) && |retained| <= EffectiveLimit()
    {
      hide Servable, Consistent, Located, SameSources, HasSource, Ids, CountIn, Filled, Sourced, Distinct, Outstanding, WindowOf;
      Delivering(H(), handle);
      AnyPending(H(), service.pending - {handle});
      ghost var window := Window();
      var request := service.Deliver(handle);
      ghost var row := index[request.value];
      IndexedRow(H(), request.value);
      CoveredInWindow(row);
      Answer(request.value, Picture(image), 0);
      assert Window() == window;
      WindowMeans(0);
      WindowMeans(1);
      assert retained[0..] == [retained[0]] + retained[1..];
      CountHead(retained[0], retained[1..], window);
    }

    /** More outstanding work than may be retained leaves some of it in flight. */
    lemma Crowded()
      requires Valid({}) && |retained| <= EffectiveLimit() < Outstanding(0)
      ensures service.pending != map[]
    {
      hide Servable, Located;
      assert retained[0..] == retained;
      CountAtMost(retained, Window());
      NothingOpen(H());
    }

    /**
     * A window that does not fit never comes to rest while there are pictures for it: after any
     * number of answers requests are still in flight.
     */
    method NeverSettle(times: nat, image: Image)
      requires Valid({}) && Focused() && Filled() && Sourced() && Untroubled()
      requires EffectiveLimit() < |Window()| && service.pending != map[]
      modifies `retained, `index, rows`items, provider, service
      ensures Valid({}) && service.pending != map[] && Ids(rows.items) == old(Ids(rows.items))
    {
      hide *;
      ghost var ids, window := Ids(rows.items), Window();
      OutstandingRows();
      for i := 0 to times
        invariant Valid({}) && Focused() && Filled() && Sourced() && Ids(rows.items) == ids
        invariant Window() == window && Outstanding(0) == |window| && EffectiveLimit() < |window| && service.pending != map[]
      {
        var handle :| handle in service.pending;
        PictureFor(handle, image);
        Crowded();
      }
    }
  
  }

  lemma {:induction false} CountHead(x: Id, s: seq<Id>, w: set<Id>)
    ensures CountIn([x] + s, w) == CountIn(s, w) + if x in w then 1 else 0
  {
    if s == [] {
      assert [x][..0] == [];
    } else {
      assert ([x] + s)[..|s|] == [x] + s[..|s| - 1];
      CountHead(x, s[..|s| - 1], w);
    }
  }

  lemma {:induction false} CountAtMost(s: seq<Id>, w: set<Id>)
    ensures CountIn(s, w) <= |s|
  {
    if s != [] { CountAtMost(s[..|s| - 1], w); }
  }

  lemma OneMoreIn(e: set<Id>, x: Id, w: set<Id>)
    requires x !in e
    ensures |(e + {x}) * w| == |e * w| + if x in w then 1 else 0
  {
    assert (e + {x}) * w == e * w + if x in w then {x} else {};
  }

  lemma {:induction false} CountIsSize(s: seq<Id>, w: set<Id>)
    requires Distinct(s)
    ensures CountIn(s, w) == |Elements(s) * w|
  {
    hide Distinct, Elements;
    if s == [] {
      NothingHeld();
    } else {
      var rest, last := s[..|s| - 1], s[|s| - 1];
      DistinctFront(s);
      CountIsSize(rest, w);
      LastElement(rest, last);
      OneMoreIn(Elements(rest), last, w);
    }
  }

  lemma DistinctFront<T>(s: seq<T>)
    requires Distinct(s) && s != []
    ensures var rest, last := s[..|s| - 1], s[|s| - 1];
      Distinct(rest) && last !in rest && s == rest + [last]
  {
  }

  lemma LastElement(s: seq<Id>, x: Id)
    ensures Elements(s + [x]) == Elements(s) + {x} && (x in Elements(s) <==> x in s)
  {
    assert forall y :: y in s + [x] <==> y in s || y == x;
  }

  lemma Parts(w: set<Id>, e: set<Id>)
    ensures |e * w| + |w - e| == |w|
  {
    assert e * w + (w - e) == w;
  }

  lemma {:induction false} CountNone(s: seq<Id>)
    ensures CountIn(s, {}) == 0
  {
    if s != [] { CountNone(s[..|s| - 1]); }
  }

  // ----- how pictures are lost -----

  /** A model with these rows, each with a source, before any view looks at it. */
  method OpenedLibrary(ids: seq<Id>, library: map<Id, Record>, pathOf: Record -> Option<Path>) returns (model: MediaLibraryModel)
    requires Distinct(ids) && forall id | id in ids :: id in library && pathOf(library[id]).Some?
    ensures fresh(model) && fresh(model.rows) && fresh(model.provider) && fresh(model.service)
    ensures model.Valid({}) && model.Agrees() && model.library == library && model.pathOf == pathOf
    ensures model.rows.items == seq(|ids|, i requires 0 <= i < |ids| => NewItem(ids[i]))
    ensures model.retained == [] && model.index == map[]
    ensures model.visibleFirst == model.visibleLast == -1 && model.prefetchMargin == 20 && model.retainedLimit == 512
  {
    hide *;
    var rows := new RowList();
    var provider := new ThumbnailImageProvider();
    var service := new ThumbnailService();
    model := new MediaLibraryModel(rows, provider, service, pathOf);
    model.ValidMeans();
    model.AgreesMeans();
    model.LoadFrom(library);
    ghost var h := model.H();
    var insertionOnly := model.ReplaceRows(ids);
    NewRows(h, ids);
    model.ValidMeans();
    model.AgreesWhen();
  }

  lemma NewItemsNeedPictures(ids: seq<Id>, library: map<Id, Record>, pathOf: Record -> Option<Path>)
    requires forall id | id in ids :: id in library && pathOf(library[id]).Some?
    ensures forall i | 0 <= i < |ids| :: NewItem(ids[i]).status == Pending && HasSource(NewItem(ids[i]), library, pathOf)
  {
  }

  lemma NewRows(h: Held, ids: seq<Id>)
    requires h.items == [] && h.retained == []
    ensures var now := Reloaded(h, Rebuilt(h.items, ids), ids);
      now.items == seq(|ids|, i requires 0 <= i < |ids| => NewItem(ids[i])) && now.retained == [] && now.index == map[]
  {
  }

  /**
   * Such a model with every thumbnail loaded: each row is asked for, and each request is answered
   * with a picture.
   */
  method LoadedLibrary(ids: seq<Id>, library: map<Id, Record>, pathOf: Record -> Option<Path>, image: Image)
    returns (model: MediaLibraryModel)
    requires Distinct(ids) && |ids| <= 500 && forall id | id in ids :: id in library && pathOf(library[id]).Some?
    ensures fresh(model) && fresh(model.rows) && fresh(model.provider) && fresh(model.service)
    ensures model.Valid({}) && model.Agrees() && |model.retained| == |ids| == |model.rows.items|
    ensures model.visibleFirst == model.visibleLast == -1 && model.prefetchMargin == 20 && model.retainedLimit == 512
  {
    hide *;
    model := OpenedLibrary(ids, library, pathOf);
    NewItemsNeedPictures(ids, library, pathOf);
    model.AskForAll();
    model.AnswerAll(|ids|, image);
  }

  /**
   * A view shows 66 rows, all of them loaded, and then only one: the provider shrinks below the
   * number of retained pictures, and rows that claim to be ready lose theirs.
   */
  method ShrinkingTheWindowLosesPictures(ids: seq<Id>, library: map<Id, Record>, pathOf: Record -> Option<Path>, image: Image)
    returns (model: MediaLibraryModel)
    requires Distinct(ids) && |ids| == 66 && forall id | id in ids :: id in library && pathOf(library[id]).Some?
    ensures model.Valid({}) && !Servable(model.H())
  {
    hide *;
    model := LoadedLibrary(ids, library, pathOf, image);
    model.AgreesMeans();
    model.LimitIs();
    model.SetVisibleRange(0, 65);
    model.LimitIs();
    model.AgreesMeans();
    MaxIs(1, 1);
    model.SetRetainedThumbnailLimit(1);
    model.LimitIs();
    TrimmedIs(model.retained, model.EffectiveLimit());
    model.AgreesMeans();
    model.RetainedHaveRows();
    model.SetVisibleRange(0, 0);
    model.LimitIs();
  }

  /**
   * A view that shows rows 1 to 0, backwards, of a library of two, one of which may be retained: both
   * are covered, and each picture drives out the other one, which is asked for again, without end.
   */
  method BackwardWindowNeverSettles(ids: seq<Id>, library: map<Id, Record>, pathOf: Record -> Option<Path>, image: Image, times: nat)
    returns (model: MediaLibraryModel)
    requires Distinct(ids) && |ids| == 2 && forall id | id in ids :: id in library && pathOf(library[id]).Some?
    ensures model.Valid({}) && model.visibleFirst == 1 && model.visibleLast == 0
    ensures model.service.pending != map[]
  {
    hide *;
    model := OpenedLibrary(ids, library, pathOf);
    NewItemsNeedPictures(ids, library, pathOf);
    MaxIs(1, 1);
    TrimmedIs(model.retained, 1);
    model.SetRetainedThumbnailLimit(1);
    model.LimitIs();
    ghost var items := model.rows.items;
    model.SetVisibleRange(1, 0);
    MinIs(1, 1);
    MinIs(0, 1);
    MaxIs(0, 1);
    MaxIs(0, 0);
    model.LimitIs();
    model.BothCovered(items, ids);
    model.OutstandingRows();
    model.Crowded();
    model.NeverSettle(times, image);
  }

  lemma MinIs(a: int, b: int)
    ensures Min(a, b) == if a < b then a else b
  {
  }

  lemma MaxIs(a: int, b: int)
    ensures Max(a, b) == if a < b then b else a
  {
  }

  lemma TrimmedFits<T>(s: seq<T>, n: nat)
    ensures |Trimmed(s, n)| <= n
  {
  }

  lemma TrimmedIs<T>(s: seq<T>, n: nat)
    ensures forall t: seq<T> :: |t| <= n ==> Trimmed(t, n) == t
  {
  }
}
