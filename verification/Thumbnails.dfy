/**
 * The thumbnails a browser holds: row states, the retention list, the image provider's cache
 * and the index of requests in flight, which have to agree.
 */
module Thumbnails {
  import opened Media
  import opened GridRows

  function Elements<T>(s: seq<T>): set<T> {
    set x | x in s
  }

  function Trimmed<T>(s: seq<T>, n: nat): seq<T> {
    if |s| <= n then s else s[..n]
  }

  function Max(a: int, b: int): int { if a < b then b else a }

  function Min(a: int, b: int): int { if a < b then a else b }

  function Without<T(==)>(s: seq<T>, x: T): seq<T> {
    if s == [] then []
    else if s[0] == x then s[1..]
    else [s[0]] + Without(s[1..], x)
  }

  lemma {:induction false} WithoutElement<T>(s: seq<T>, x: T)
    requires Distinct(s)
    ensures Distinct(Without(s, x))
    ensures forall y :: y in Without(s, x) <==> y in s && y != x
    ensures |Without(s, x)| == if x in s then |s| - 1 else |s|
    ensures Elements(Without(s, x)) == Elements(s) - {x}
  {
    WithoutOne(s, x);
    SameElements(s, Without(s, x), x);
  }

  lemma SameElements<T>(s: seq<T>, left: seq<T>, x: T)
    requires forall y :: y in left <==> y in s && y != x
    ensures Elements(left) == Elements(s) - {x}
  {
  }

  lemma {:induction false} WithoutOne<T>(s: seq<T>, x: T)
    requires Distinct(s)
    ensures Distinct(Without(s, x))
    ensures forall y :: y in Without(s, x) <==> y in s && y != x
    ensures |Without(s, x)| == if x in s then |s| - 1 else |s|
  {
    if s != [] {
      WithoutOne(s[1..], x);
      assert forall y :: y in s <==> y == s[0] || y in s[1..];
      if s[0] != x {
        var rest := Without(s[1..], x);
        assert s[0] !in s[1..];
        assert forall i | 0 < i < |[s[0]] + rest| :: ([s[0]] + rest)[i] == rest[i - 1];
      }
    }
  }

  lemma {:induction false} ElementCount<T>(s: seq<T>)
    requires Distinct(s)
    ensures |Elements(s)| == |s|
  {
    if s != [] {
      ElementCount(s[1..]);
      assert Elements(s) == Elements(s[1..]) + {s[0]};
    }
  }

  /** A bounded cache that drops what was used least recently. */
  class ThumbnailImageProvider {
    var capacity: nat
    var images: map<Id, Image>
    var recency: seq<Id>    // most recently used first

    ghost predicate Valid()
      reads this
    {
      1 <= capacity && Distinct(recency) && Elements(recency) == images.Keys && |recency| <= capacity
    }

    constructor ()
      ensures Valid() && images == map[] && capacity == 100
    {
      capacity, images, recency := 100, map[], [];
    }

    method TrimTo(n: nat)
      requires Distinct(recency) && Elements(recency) == images.Keys
      modifies `images, `recency
      ensures recency == Trimmed(old(recency), n) && Distinct(recency) && Elements(recency) == images.Keys
      ensures forall id | id in images :: id in old(images) && images[id] == old(images)[id]
      ensures |old(recency)| <= n ==> images == old(images)
    {
      recency := Trimmed(recency, n);
      images := map id | id in images && id in recency :: images[id];
    }

    /** Makes room first, even when the image replaces one that is already held. */
    method SetImage(id: Id, image: Image)
      requires Valid()
      modifies `images, `recency
      ensures Valid() && id in images && images[id] == image
      ensures recency == [id] + Without(Trimmed(old(recency), capacity - 1), id)
      ensures |old(recency)| < capacity ==> images == old(images)[id := image]
    {
      TrimTo(capacity - 1);
      WithoutElement(recency, id);
      images := images[id := image];
      recency := [id] + Without(recency, id);
    }

    method RemoveImage(id: Id)
      requires Valid()
      modifies `images, `recency
      ensures Valid() && images == old(images) - {id} && recency == Without(old(recency), id)
    {
      WithoutElement(recency, id);
      images := images - {id};
      recency := Without(recency, id);
    }

    /** Serving an image makes it the most recently used one. */
    method RequestImage(id: Id) returns (image: Option<Image>)
      requires Valid()
      modifies `recency
      ensures Valid() && image == if id in images then Some(images[id]) else None
      ensures recency == if id in images then [id] + Without(old(recency), id) else old(recency)
    {
      if id !in images { return None; }
      WithoutElement(recency, id);
      recency := [id] + Without(recency, id);
      image := Some(images[id]);
    }

    method SetCapacity(n: int)
      requires Valid()
      modifies this
      ensures Valid() && capacity == Max(1, n)
      ensures recency == Trimmed(old(recency), capacity)
      ensures images == old(images) <==> |old(recency)| <= capacity
      ensures forall id | id in images :: id in old(images) && images[id] == old(images)[id]
    {
      capacity := Max(1, n);
      if |recency| > capacity {
        assert recency[capacity] in Elements(recency);
        assert recency[capacity] !in recency[..capacity];
      }
      TrimTo(capacity);
    }

    method Clear()
      modifies `images, `recency
      ensures images == map[] && recency == []
    {
      images, recency := map[], [];
    }
  }

  // ----- what has to agree -----

  /** Rows, retention list, provider contents, request index and the service's open requests, as values. */
  datatype Held = Held(items: seq<Item>, retained: seq<Id>, images: map<Id, Image>,
                       index: map<RequestKey, nat>, pending: map<nat, RequestKey>)

  /** The provider can serve exactly the rows that claim to be ready, and they are the retained ones. */
  ghost predicate Servable(h: Held) {
    && Elements(h.retained) == h.images.Keys
    && (forall i | 0 <= i < |h.items| :: h.items[i].status == Ready <==> h.items[i].id in h.images)
    && (forall i | 0 <= i < |h.items| && h.items[i].status == Ready :: h.items[i].image == Some(h.images[h.items[i].id]))
    && (forall id | id in h.images :: id in Ids(h.items))
  }

  predicate KeyedRow(h: Held, i: nat)
    requires i < |h.items|
  {
    var key := h.items[i].key;
    key.Some? && key.value.id == h.items[i].id && key.value in h.index && h.index[key.value] == i
  }

  /** The request index maps exactly the loading rows' keys, each to its own row. */
  ghost predicate Indexed(h: Held) {
    && (forall i | 0 <= i < |h.items| && h.items[i].status == Loading :: KeyedRow(h, i))
    && (forall k | k in h.index :: h.index[k] < |h.items| && h.items[h.index[k]].status == Loading && h.items[h.index[k]].key == Some(k))
  }

  /** Every indexed key has its own open request, except the keys whose request is already gone. */
  ghost predicate Wired(h: Held, gone: set<RequestKey>) {
    && (forall k | k in h.index && k !in gone ::
          h.index[k] < |h.items| && h.items[h.index[k]].handle in h.pending && h.pending[h.items[h.index[k]].handle] == k)
    && (forall t | t in h.pending ::
          var k := h.pending[t]; k !in gone && k in h.index && h.index[k] < |h.items| && h.items[h.index[k]].handle == t)
  }

  /** The retained ids are those of the ready rows, whatever the provider still holds of them. */
  ghost predicate RetainedAreReady(h: Held) {
    && (forall i | 0 <= i < |h.items| :: h.items[i].status == Ready <==> h.items[i].id in Elements(h.retained))
    && (forall id | id in Elements(h.retained) :: id in Ids(h.items))
  }

  ghost predicate Consistent(h: Held, gone: set<RequestKey>) {
    Distinct(Ids(h.items)) && Distinct(h.retained) && RetainedAreReady(h) && Indexed(h) && Wired(h, gone)
  }

  lemma SameIdSameRow(items: seq<Item>, i: nat, j: nat)
    requires Distinct(Ids(items)) && i < |items| && j < |items| && items[i].id == items[j].id
    ensures i == j
  {
    assert Ids(items)[i] == Ids(items)[j];
  }

  lemma IdsOfUpdate(items: seq<Item>, i: nat, item: Item)
    requires i < |items| && item.id == items[i].id
    ensures Ids(items[i := item]) == Ids(items)
  {
  }

  // ----- the transitions of one row -----

  /** A pending row asks for its thumbnail. */
  lemma RowRequests(h: Held, i: nat, item: Item, key: RequestKey)
    requires Consistent(h, {}) && i < |h.items| && h.items[i].status == Pending && key.id == h.items[i].id
    requires item.id == h.items[i].id && item.status == Loading && item.key == Some(key) && item.handle !in h.pending
    ensures var h' := h.(items := h.items[i := item], index := h.index[key := i], pending := h.pending[item.handle := key]);
      Consistent(h', {}) && (Servable(h) ==> Servable(h'))
    ensures key !in h.index
  {
    hide Ids, Distinct, Elements;
    IdsOfUpdate(h.items, i, item);
    if key in h.index {
      SameIdSameRow(h.items, h.index[key], i);
    }
  }

  /** A row that is not loading changes to another such state, keeping its picture if it has one. */
  lemma RowSettles(h: Held, i: nat, item: Item, gone: set<RequestKey>)
    requires Consistent(h, gone) && i < |h.items| && h.items[i].status != Loading && item.status != Loading
    requires item.id == h.items[i].id && (item.status == Ready <==> h.items[i].status == Ready)
    requires item.status == Ready ==> item.image == h.items[i].image
    ensures var h' := h.(items := h.items[i := item]);
      Consistent(h', gone) && (Servable(h) ==> Servable(h'))
  {
    hide Ids, Distinct, Elements;
    IdsOfUpdate(h.items, i, item);
  }

  /** A loading row whose request is gone stops waiting: its key leaves the index. */
  lemma RowGivesUp(h: Held, i: nat, item: Item, gone: set<RequestKey>)
    requires Consistent(h, gone) && i < |h.items| && h.items[i].status == Loading
    requires item.id == h.items[i].id && item.status != Ready && item.status != Loading
    ensures h.items[i].key.Some? && h.items[i].key.value in h.index
    ensures var k := h.items[i].key.value;
      var h' := h.(items := h.items[i := item], index := h.index - {k});
      (k in gone ==> Consistent(h', gone - {k})) && (Servable(h) ==> Servable(h'))
  {
    hide Ids, Distinct, Elements;
    assert KeyedRow(h, i);
    IdsOfUpdate(h.items, i, item);
  }

  /** What holding the picture of row `i` makes of the state. */
  function Loaded(h: Held, i: nat, item: Item, image: Image): Held
    requires i < |h.items| && h.items[i].key.Some?
  {
    Held(h.items[i := item], [item.id] + Without(h.retained, item.id), h.images[item.id := image],
         h.index - {h.items[i].key.value}, h.pending)
  }

  /** A loading row gets its picture. */
  lemma RowLoads(h: Held, i: nat, item: Item, image: Image)
    requires i < |h.items| && h.items[i].status == Loading && h.items[i].key.Some?
    requires Consistent(h, {h.items[i].key.value})
    requires item.id == h.items[i].id && item.status == Ready && item.image == Some(image)
    ensures h.items[i].key.value in h.index
    ensures Consistent(Loaded(h, i, item, image), {})
    ensures item.id !in h.retained && Without(h.retained, item.id) == h.retained
    ensures Servable(h) ==> item.id !in h.images && Servable(Loaded(h, i, item, image))
  {
    hide Servable, Without, RetainedAreReady;
    assert KeyedRow(h, i);
    IdsOfUpdate(h.items, i, item);
    LoadedIsRetained(h, i, item, image);
    Prepended(h.retained, item.id);
    if Servable(h) {
      LoadedServes(h, i, item, image);
    }
  }

  lemma InElements<T>(s: seq<T>, x: T)
    ensures x in Elements(s) <==> x in s
  {
  }

  lemma Prepended<T>(s: seq<T>, x: T)
    requires Distinct(s) && x !in s
    ensures Distinct([x] + s) && Elements([x] + s) == Elements(s) + {x}
  {
    assert forall k | 0 < k < |[x] + s| :: ([x] + s)[k] == s[k - 1];
    assert forall y :: y in [x] + s <==> y == x || y in s;
  }

  lemma OtherIds(items: seq<Item>, i: nat)
    requires Distinct(Ids(items)) && i < |items|
    ensures items[i].id in Ids(items)
    ensures forall j | 0 <= j < |items| && j != i :: items[j].id != items[i].id
  {
    assert Ids(items)[i] == items[i].id;
    forall j | 0 <= j < |items| && j != i ensures items[j].id != items[i].id {
      assert Ids(items)[j] == items[j].id;
    }
  }

  /** A row that waits is not retained; once it is loaded it is. */
  lemma LoadedIsRetained(h: Held, i: nat, item: Item, image: Image)
    requires RetainedAreReady(h) && Distinct(Ids(h.items)) && Distinct(h.retained)
    requires i < |h.items| && h.items[i].status == Loading && h.items[i].key.Some?
    requires item.id == h.items[i].id && item.status == Ready
    ensures item.id !in h.retained && Without(h.retained, item.id) == h.retained
    ensures RetainedAreReady(Loaded(h, i, item, image))
  {
    hide Ids, Distinct, Without, Elements;
    IdsOfUpdate(h.items, i, item);
    InElements(h.retained, item.id);
    WithoutAbsent(h.retained, item.id);
    Prepended(h.retained, item.id);
    OtherIds(h.items, i);
  }

  lemma LoadedServes(h: Held, i: nat, item: Item, image: Image)
    requires Servable(h) && Distinct(Ids(h.items)) && Distinct(h.retained)
    requires i < |h.items| && h.items[i].status == Loading && h.items[i].key.Some?
    requires item.id == h.items[i].id && item.status == Ready && item.image == Some(image)
    ensures item.id !in h.images && Servable(Loaded(h, i, item, image))
  {
    hide Ids, Distinct, Without, Elements;
    IdsOfUpdate(h.items, i, item);
    InElements(h.retained, item.id);
    WithoutAbsent(h.retained, item.id);
    Prepended(h.retained, item.id);
    OtherIds(h.items, i);
  }

  lemma {:induction false} WithoutAbsent<T>(s: seq<T>, x: T)
    requires x !in s
    ensures Without(s, x) == s
  {
    if s != [] {
      WithoutAbsent(s[1..], x);
    }
  }

  /** A row without its picture, and pending if it claimed to be ready. */
  function Released(item: Item): Item {
    item.(image := None, status := if item.status == Ready then Pending else item.status)
  }

  /** A row lets go of its picture, and goes back to pending. */
  lemma RowReleases(h: Held, i: nat, gone: set<RequestKey>)
    requires Consistent(h, gone) && i < |h.items|
    ensures var id := h.items[i].id;
      var h' := h.(items := h.items[i := Released(h.items[i])], retained := Without(h.retained, id), images := h.images - {id});
      Consistent(h', gone) && (Servable(h) ==> Servable(h'))
    ensures h.items[i].id in h.retained ==> h.items[i].status == Ready
  {
    hide Ids, Distinct, Without, Elements;
    IdsOfUpdate(h.items, i, Released(h.items[i]));
    WithoutElement(h.retained, h.items[i].id);
    InElements(h.retained, h.items[i].id);
    OtherIds(h.items, i);
  }

  function KeepOnly(pending: map<nat, RequestKey>, keep: set<nat>): map<nat, RequestKey> {
    map t | t in pending && t in keep :: pending[t]
  }

  /** Requests in flight, as the owning thread sees them. */
  class ThumbnailService {
    var pending: map<nat, RequestKey>
    var nextHandle: nat

    ghost predicate Valid()
      reads this
    {
      1 <= nextHandle && forall t | t in pending :: 1 <= t < nextHandle
    }

    constructor ()
      ensures Valid() && pending == map[] && nextHandle == 1
    {
      pending, nextHandle := map[], 1;
    }

    method Request(key: RequestKey) returns (handle: nat)
      requires Valid()
      modifies this
      ensures Valid() && handle == old(nextHandle) && handle !in old(pending)
      ensures pending == old(pending)[handle := key]
    {
      handle := nextHandle;
      nextHandle := nextHandle + 1;
      pending := pending[handle := key];
    }

    method CancelAllExcept(keep: set<nat>)
      requires Valid()
      modifies `pending
      ensures Valid() && pending == KeepOnly(old(pending), keep)
    {
      pending := KeepOnly(pending, keep);
    }

    /** A worker's answer is delivered unless its request was cancelled first. */
    method Deliver(handle: nat) returns (request: Option<RequestKey>)
      requires Valid()
      modifies `pending
      ensures Valid() && request == if handle in old(pending) then Some(old(pending)[handle]) else None
      ensures pending == old(pending) - {handle}
    {
      request := if handle in pending then Some(pending[handle]) else None;
      pending := pending - {handle};
    }
  }
}
