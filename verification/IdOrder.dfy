/** The order in which ids are listed, and the first id of a set. */
module IdOrder {
  import opened Media

  /** Strings compare by their first differing character; a prefix comes first. */
  predicate Before(a: Id, b: Id) {
    if a == [] then b != []
    else b != [] && (a[0] < b[0] || (a[0] == b[0] && Before(a[1..], b[1..])))
  }

  lemma {:induction false} BeforeIsTotal(a: Id, b: Id)
    ensures a == b || Before(a, b) || Before(b, a)
  {
    if a != [] && b != [] && a[0] == b[0] {
      BeforeIsTotal(a[1..], b[1..]);
      assert a == [a[0]] + a[1..] && b == [b[0]] + b[1..];
    }
  }

  lemma {:induction false} BeforeIsStrict(a: Id)
    ensures !Before(a, a)
  {
    if a != [] {
      BeforeIsStrict(a[1..]);
    }
  }

  lemma {:induction false} BeforeIsTransitive(a: Id, b: Id, c: Id)
    requires Before(a, b) && Before(b, c)
    ensures Before(a, c)
  {
    if a != [] && a[0] == b[0] == c[0] {
      BeforeIsTransitive(a[1..], b[1..], c[1..]);
    }
  }

  predicate IsFirst(id: Id, ids: set<Id>) {
    id in ids && forall other | other in ids && other != id :: Before(id, other)
  }

  lemma {:induction false} FirstExists(ids: set<Id>)
    requires ids != {}
    ensures exists id | id in ids :: IsFirst(id, ids)
  {
    var x :| x in ids;
    if ids - {x} == {} {
      assert ids == {x};
      assert IsFirst(x, ids);
    } else {
      FirstExists(ids - {x});
      var y :| y in ids - {x} && IsFirst(y, ids - {x});
      BeforeIsTotal(x, y);
      if Before(x, y) {
        forall z | z in ids && z != x ensures Before(x, z) {
          if z != y { BeforeIsTransitive(x, y, z); }
        }
        assert IsFirst(x, ids);
      } else {
        assert IsFirst(y, ids);
      }
    }
  }

  lemma FirstIsUnique(ids: set<Id>, a: Id, b: Id)
    requires IsFirst(a, ids) && IsFirst(b, ids)
    ensures a == b
  {
    if a != b {
      BeforeIsTransitive(a, b, a);
      BeforeIsStrict(a);
    }
  }

  ghost function First(ids: set<Id>): (id: Id)
    requires ids != {}
    ensures IsFirst(id, ids)
  {
    FirstExists(ids);
    var id :| id in ids && IsFirst(id, ids);
    id
  }

  ghost predicate Sorted(ids: seq<Id>) {
    forall i, j | 0 <= i < j < |ids| :: Before(ids[i], ids[j])
  }

  function Elements(ids: seq<Id>): set<Id> {
    set id | id in ids
  }

  lemma ElementsAppend(ids: seq<Id>, id: Id)
    ensures Elements(ids + [id]) == Elements(ids) + {id}
  {
  }
}
