/**
 * Reloading the browser's row list: when rows were only added, they are inserted in place and
 * announced as ranges; otherwise the list is rebuilt. Both give the same rows.
 */
module GridRows {
  import opened Media

  type Image = Bytes

  datatype Status = Pending | Loading | Ready | Error

  /** A thumbnail request is identified by the item, its content and the size asked for. */
  datatype RequestKey = RequestKey(id: Id, fingerprint: Fingerprint, size: nat)

  /** One row; handle 0 means that no request is in flight for it. */
  datatype Item = Item(id: Id, record: Option<Record>, status: Status, image: Option<Image>,
                       handle: nat, key: Option<RequestKey>)

  function NewItem(id: Id): Item {
    Item(id, None, Pending, None, 0, None)
  }

  /** A row whose request, if any, was just cancelled. */
  function Settled(item: Item): Item {
    item.(status := if item.status == Loading then Pending else item.status, handle := 0, key := None)
  }

  function Ids(items: seq<Item>): (ids: seq<Id>)
    ensures |ids| == |items|
  {
    seq(|items|, i requires 0 <= i < |items| => items[i].id)
  }

  ghost predicate Distinct<T>(s: seq<T>) {
    forall i, j | 0 <= i < j < |s| :: s[i] != s[j]
  }

  // ----- what a reload means -----

  /** The old row with this id, settled, or a new row. */
  ghost function RowFor(was: seq<Item>, id: Id): Item {
    if i :| 0 <= i < |was| && was[i].id == id then Settled(was[i]) else NewItem(id)
  }

  ghost function Rebuilt(was: seq<Item>, ids: seq<Id>): (rows: seq<Item>)
    ensures |rows| == |ids|
  {
    seq(|ids|, i requires 0 <= i < |ids| => RowFor(was, ids[i]))
  }

  lemma RowForAt(was: seq<Item>, i: nat)
    requires i < |was| && Distinct(Ids(was))
    ensures RowFor(was, was[i].id) == Settled(was[i])
  {
    var j :| 0 <= j < |was| && was[j].id == was[i].id && RowFor(was, was[i].id) == Settled(was[j]);
    assert Ids(was)[i] == Ids(was)[j];
  }

  /** A row that survives a reload keeps its record, its picture and its settled status. */
  lemma SurvivorsKeepTheirPictures(was: seq<Item>, ids: seq<Id>, i: nat, n: nat)
    requires Distinct(Ids(was)) && i < |was| && n < |ids| && was[i].id == ids[n]
    ensures var row := Rebuilt(was, ids)[n];
      && row.id == was[i].id && row.record == was[i].record && row.image == was[i].image
      && row.status == (if was[i].status == Loading then Pending else was[i].status)
      && row.handle == 0 && row.key == None
  {
    RowForAt(was, i);
  }

  /** A row that was not there waits, with no record, picture or request yet. */
  lemma NewRowsWait(was: seq<Item>, ids: seq<Id>, n: nat)
    requires n < |ids| && forall i | 0 <= i < |was| :: was[i].id != ids[n]
    ensures Rebuilt(was, ids)[n] == Item(ids[n], None, Pending, None, 0, None)
  {
    assert RowFor(was, ids[n]) == NewItem(ids[n]);
  }

  // ----- subsequences -----

  /** `at` picks the elements of `short`, in order, out of `long`. */
  ghost predicate Embeds<T>(short: seq<T>, long: seq<T>, at: seq<nat>) {
    && |at| == |short|
    && (forall i | 0 <= i < |at| :: at[i] < |long| && long[at[i]] == short[i])
    && (forall i, j | 0 <= i < j < |at| :: at[i] < at[j])
  }

  ghost predicate IsSubsequence<T>(short: seq<T>, long: seq<T>) {
    exists at :: Embeds(short, long, at)
  }

  /** The k-th element of a subsequence cannot lie before position k. */
  lemma {:induction false} EmbeddingIsSpread<T>(short: seq<T>, long: seq<T>, at: seq<nat>, k: nat)
    requires Embeds(short, long, at) && k < |at|
    ensures k <= at[k]
  {
    if k > 0 {
      EmbeddingIsSpread(short, long, at, k - 1);
    }
  }

  lemma SubsequenceIsShorter<T>(short: seq<T>, long: seq<T>)
    requires IsSubsequence(short, long)
    ensures |short| <= |long|
  {
    var at :| Embeds(short, long, at);
    if at != [] {
      EmbeddingIsSpread(short, long, at, |at| - 1);
    }
  }

  /**
   * Matching greedily from the left finds an embedding exactly when there is one.
   */
  method InsertionOnly(was: seq<Id>, ids: seq<Id>) returns (insertionOnly: bool)
    ensures insertionOnly <==> IsSubsequence(was, ids)
  {
    insertionOnly := |ids| >= |was|;
    if !insertionOnly {
      if IsSubsequence(was, ids) { SubsequenceIsShorter(was, ids); }
      return;
    }
    var candidate := 0;
    ghost var at: seq<nat> := [];
    for row := 0 to |was|
      invariant candidate <= |ids|
      invariant Embeds(was[..row], ids, at)
      invariant forall i | 0 <= i < |at| :: at[i] < candidate
      invariant forall other | Embeds(was, ids, other) :: row < |was| ==> candidate <= other[row]
    {
      ghost var from := candidate;
      while candidate < |ids| && ids[candidate] != was[row]
        invariant from <= candidate <= |ids|
        invariant forall c | from <= c < candidate :: ids[c] != was[row]
      {
        candidate := candidate + 1;
      }
      forall other | Embeds(was, ids, other) ensures candidate <= other[row] {
      }
      if candidate == |ids| {
        return false;
      }
      at := at + [candidate];
      candidate := candidate + 1;
    }
    assert was[..|was|] == was;
  }

  // ----- announcing insertions -----

  /** Rows `first` to `last` of the new list were inserted there. */
  datatype Range = Range(first: nat, last: nat)

  /** What a view that follows the announcements ends up with. */
  function Replayed(rows: seq<Id>, ranges: seq<Range>, ids: seq<Id>): seq<Id> {
    if ranges == [] then rows
    else
      var before, r := Replayed(rows, ranges[..|ranges| - 1], ids), ranges[|ranges| - 1];
      if r.first <= |before| && r.first <= r.last < |ids| then before[..r.first] + ids[r.first..r.last + 1] + before[r.first..]
      else before
  }

  /** The rows from `k` on of the old list still have to be met, in order, from row `n` on. */
  ghost predicate Remaining(was: seq<Item>, ids: seq<Id>, k: nat, n: nat) {
    k <= |was| && n <= |ids| && IsSubsequence(Ids(was)[k..], ids[n..])
  }

  /** Skipping a row that is not the next old one loses nothing. */
  lemma SkipRow(was: seq<Item>, ids: seq<Id>, k: nat, n: nat)
    requires Remaining(was, ids, k, n) && n < |ids|
    requires k == |was| || was[k].id != ids[n]
    ensures Remaining(was, ids, k, n + 1)
  {
    var short, long := Ids(was)[k..], ids[n..];
    var at :| Embeds(short, long, at);
    if at != [] {
      assert long[at[0]] == short[0] == was[k].id && long[0] == ids[n];
      assert forall i | 0 <= i < |at| :: at[0] <= at[i];
    }
    var moved := seq(|at|, i requires 0 <= i < |at| => (at[i] - 1) as nat);
    assert Embeds(short, ids[n + 1..], moved);
  }

  /** Meeting the next old row uses it up. */
  lemma MeetRow(was: seq<Item>, ids: seq<Id>, k: nat, n: nat)
    requires Remaining(was, ids, k, n) && n < |ids| && k < |was| && was[k].id == ids[n]
    requires Distinct(ids)
    ensures Remaining(was, ids, k + 1, n + 1)
  {
    var short, long := Ids(was)[k..], ids[n..];
    var at :| Embeds(short, long, at);
    assert long[at[0]] == long[0];
    assert ids[n + at[0]] == ids[n];
    var moved := seq(|at| - 1, i requires 0 <= i < |at| - 1 => (at[i + 1] - 1) as nat);
    assert Embeds(Ids(was)[k + 1..], ids[n + 1..], moved);
  }

  /** A row passed over while looking for the next old row is new. */
  lemma PassedRowIsNew(was: seq<Item>, ids: seq<Id>, k: nat, n: nat)
    requires Remaining(was, ids, k, n) && n < |ids| && Distinct(ids) && Distinct(Ids(was))
    requires k == |was| || was[k].id != ids[n]
    requires forall i | 0 <= i < k :: was[i].id in ids[..n]
    ensures RowFor(was, ids[n]) == NewItem(ids[n])
  {
    forall i | 0 <= i < |was| && was[i].id == ids[n] ensures false {
      if i >= k {
        var at :| Embeds(Ids(was)[k..], ids[n..], at);
        assert ids[n..][at[i - k]] == Ids(was)[k..][i - k] == ids[n];
        assert ids[n + at[i - k]] == ids[n];
        EmbeddingIsSpread(Ids(was)[k..], ids[n..], at, i - k);
      }
    }
  }

  /** After `n` new rows, of which `k` are old: the front is rebuilt, the rest is untouched. */
  ghost predicate Woven(was: seq<Item>, ids: seq<Id>, k: nat, n: nat, items: seq<Item>) {
    && k <= |was| && n <= |ids|
    && Remaining(was, ids, k, n)
    && items == Rebuilt(was, ids)[..n] + was[k..]
    && forall i | 0 <= i < k :: was[i].id in ids[..n]
  }

  lemma WovenMeets(was: seq<Item>, ids: seq<Id>, k: nat, n: nat, items: seq<Item>)
    requires Woven(was, ids, k, n, items) && Distinct(ids) && Distinct(Ids(was))
    requires n < |ids| && k < |was| && was[k].id == ids[n]
    ensures n < |items| && items[n] == was[k]
    ensures Woven(was, ids, k + 1, n + 1, items[n := Settled(items[n])])
    ensures Ids(items[n := Settled(items[n])]) == Ids(items)
  {
    MeetRow(was, ids, k, n);
    RowForAt(was, k);
    var next := items[n := Settled(items[n])];
    assert next == Rebuilt(was, ids)[..n + 1] + was[k + 1..];
  }

  lemma WovenInserts(was: seq<Item>, ids: seq<Id>, k: nat, n: nat, items: seq<Item>)
    requires Woven(was, ids, k, n, items) && Distinct(ids) && Distinct(Ids(was))
    requires n < |ids| && (k == |was| || was[k].id != ids[n])
    ensures n <= |items|
    ensures Woven(was, ids, k, n + 1, items[..n] + [NewItem(ids[n])] + items[n..])
  {
    SkipRow(was, ids, k, n);
    PassedRowIsNew(was, ids, k, n);
    assert Rebuilt(was, ids)[..n + 1] == Rebuilt(was, ids)[..n] + [NewItem(ids[n])];
    assert items[..n] + [NewItem(ids[n])] + items[n..] == Rebuilt(was, ids)[..n + 1] + was[k..];
  }

  lemma WovenIds(was: seq<Item>, ids: seq<Id>, k: nat, n: nat, items: seq<Item>)
    requires Woven(was, ids, k, n, items)
    ensures k <= |was| && Ids(items) == ids[..n] + Ids(was)[k..] && n <= |items|
    ensures n < |items| <==> k < |was|
    ensures n < |items| ==> items[n] == was[k]
  {
    assert forall i | 0 <= i < |ids| :: RowFor(was, ids[i]).id == ids[i];
  }

  lemma WovenEnds(was: seq<Item>, ids: seq<Id>, k: nat, items: seq<Item>)
    requires Woven(was, ids, k, |ids|, items)
    ensures items == Rebuilt(was, ids)
  {
    SubsequenceIsShorter(Ids(was)[k..], ids[|ids|..]);
  }

  lemma WovenStarts(was: seq<Item>, ids: seq<Id>)
    requires IsSubsequence(Ids(was), ids)
    ensures Woven(was, ids, 0, 0, was) && Replayed(Ids(was), [], ids) == Ids(was)
  {
    assert Ids(was)[0..] == Ids(was) && ids[0..] == ids;
  }

  lemma ReplayOneMore(rows: seq<Id>, ranges: seq<Range>, r: Range, ids: seq<Id>)
    requires r.first <= |Replayed(rows, ranges, ids)| && r.first <= r.last < |ids|
    ensures var before := Replayed(rows, ranges, ids);
      Replayed(rows, ranges + [r], ids) == before[..r.first] + ids[r.first..r.last + 1] + before[r.first..]
  {
    assert (ranges + [r])[..|ranges|] == ranges;
  }

  class RowList {
    var items: seq<Item>
    var announced: seq<Range>    // the insertions announced since the last reset
    var resets: nat

    constructor ()
      ensures items == [] && announced == [] && resets == 0
    {
      items, announced, resets := [], [], 0;
    }

    /** Inserts the new rows in place, announcing each run of them. */
    method InsertRows(ids: seq<Id>)
      requires Distinct(ids) && Distinct(Ids(items)) && IsSubsequence(Ids(items), ids)
      modifies `items, `announced
      ensures items == Rebuilt(old(items), ids)
      ensures Replayed(Ids(old(items)), announced, ids) == ids
    {
      hide Woven, Rebuilt, Ids, IsSubsequence, Distinct, Replayed, Settled;
      ghost var was := items;
      ghost var k: nat := 0;
      var row: nat := 0;
      announced := [];
      WovenStarts(was, ids);
      while row < |ids|
        invariant row <= |ids| && k <= |was|
        invariant Woven(was, ids, k, row, items)
        invariant Replayed(Ids(was), announced, ids) == Ids(items)
        decreases |ids| - row
      {
        WovenIds(was, ids, k, row, items);
        if row < |items| && items[row].id == ids[row] {
          WovenMeets(was, ids, k, row, items);
          items := items[row := Settled(items[row])];
          row, k := row + 1, k + 1;
          continue;
        }
        var first := row;
        row := InsertRun(ids, first, was, k);
        ReplayOneMore(Ids(was), announced, Range(first, row - 1), ids);
        announced := announced + [Range(first, row - 1)];
      }
      WovenEnds(was, ids, k, items);
      WovenIds(was, ids, k, row, items);
    }

    /** Inserts the run of new rows that starts at `first`. */
    method InsertRun(ids: seq<Id>, first: nat, ghost was: seq<Item>, ghost k: nat) returns (row: nat)
      requires Distinct(ids) && Distinct(Ids(was)) && Woven(was, ids, k, first, items)
      requires first < |ids| && !(first < |items| && items[first].id == ids[first])
      modifies `items
      ensures first < row <= |ids| && Woven(was, ids, k, row, items)
      ensures first <= |old(items)| && Ids(items) == Ids(old(items))[..first] + ids[first..row] + Ids(old(items))[first..]
    {
      hide Woven, Rebuilt, Ids, Distinct;
      WovenIds(was, ids, k, first, items);
      ghost var before := Ids(items);
      row := first;
      while row < |ids| && !(first < |items| && items[first].id == ids[row])
        invariant first <= row <= |ids| && items == old(items)
        invariant forall r | first <= r < row :: !(first < |items| && items[first].id == ids[r])
      {
        row := row + 1;
      }
      assert forall r | first <= r < row :: k == |was| || was[k].id != ids[r];
      for at := first to row
        invariant Woven(was, ids, k, at, items)
      {
        WovenIds(was, ids, k, at, items);
        WovenInserts(was, ids, k, at, items);
        items := items[..at] + [NewItem(ids[at])] + items[at..];
      }
      WovenIds(was, ids, k, row, items);
      assert Ids(items) == before[..first] + ids[first..row] + before[first..];
    }

    /** Rebuilds the whole list, keeping the old rows by id. */
    method Rebuild(ids: seq<Id>)
      requires Distinct(Ids(items))
      modifies this
      ensures items == Rebuilt(old(items), ids)
      ensures announced == [] && resets == old(resets) + 1
    {
      var rows := items;
      var previous: map<Id, Item> := map[];
      for i := 0 to |rows|
        invariant forall j | 0 <= j < i :: rows[j].id in previous && previous[rows[j].id] == rows[j]
        invariant forall id | id in previous :: id in Ids(rows)[..i]
        invariant resets == old(resets)
      {
        assert forall j | 0 <= j < i :: Ids(rows)[j] != Ids(rows)[i];
        assert Ids(rows)[..i + 1] == Ids(rows)[..i] + [rows[i].id];
        previous := previous[rows[i].id := rows[i]];
      }
      var next: seq<Item> := [];
      for n := 0 to |ids|
        invariant next == Rebuilt(rows, ids)[..n] && resets == old(resets)
      {
        if ids[n] in previous {
          ghost var i :| 0 <= i < |rows| && Ids(rows)[i] == ids[n];
          RowForAt(rows, i);
          next := next + [Settled(previous[ids[n]])];
        } else {
          next := next + [NewItem(ids[n])];
        }
      }
      items, announced, resets := next, [], resets + 1;
    }

    /** Reloads the list: in place when rows were only added, from scratch otherwise. */
    method Reload(ids: seq<Id>) returns (insertionOnly: bool)
      requires Distinct(ids) && Distinct(Ids(items))
      modifies this
      ensures items == Rebuilt(old(items), ids)
      ensures insertionOnly <==> IsSubsequence(Ids(old(items)), ids)
      ensures insertionOnly ==> resets == old(resets) && Replayed(Ids(old(items)), announced, ids) == ids
      ensures !insertionOnly ==> resets == old(resets) + 1
    {
      insertionOnly := InsertionOnly(Ids(items), ids);
      if insertionOnly {
        InsertRows(ids);
      } else {
        Rebuild(ids);
      }
    }
  }
}
