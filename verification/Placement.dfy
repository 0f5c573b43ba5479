/** Where parts of a byte string stand in it. */
module Placement {
  import opened Media

  /** `part` stands in `bytes` from `at` on. */
  ghost predicate Stands(bytes: Bytes, at: nat, part: Bytes) {
    at + |part| <= |bytes| && bytes[at..at + |part|] == part
  }

  lemma StandsInside(bytes: Bytes, at: nat, before: Bytes, part: Bytes, after: Bytes)
    requires Stands(bytes, at, before + part + after)
    ensures Stands(bytes, at, before) && Stands(bytes, at + |before|, part) && Stands(bytes, at + |before| + |part|, after)
  {
    var whole := before + part + after;
    PartOfPart(bytes, at, |whole|, 0, |before|);
    PartOfPart(bytes, at, |whole|, |before|, |part|);
    PartOfPart(bytes, at, |whole|, |before| + |part|, |after|);
    assert whole[0..|before|] == before;
    assert whole[|before|..|before| + |part|] == part;
    assert whole[|before| + |part|..|before| + |part| + |after|] == after;
  }

  lemma PartOfPart(bytes: Bytes, at: nat, n: nat, from: nat, m: nat)
    requires at + n <= |bytes| && from + m <= n
    ensures bytes[at..at + n][from..from + m] == bytes[at + from..at + from + m]
  {
    var part := bytes[at..at + n];
    var a, b := part[from..from + m], bytes[at + from..at + from + m];
    forall i | 0 <= i < m ensures a[i] == b[i] {
      assert part[from + i] == bytes[at + from + i];
    }
    assert a == b;
  }

  lemma StandingPart(bytes: Bytes, at: nat, part: Bytes, from: nat, m: nat)
    requires Stands(bytes, at, part) && from + m <= |part|
    ensures at + from + m <= |bytes| && bytes[at + from..at + from + m] == part[from..from + m]
  {
    PartOfPart(bytes, at, |part|, from, m);
  }
}
