/**
 * The file a record is stored in. A short portable id names its file directly; any other
 * id is hex-encoded behind an "x-" prefix so that it cannot leave the records directory.
 */
module RecordNames {
  import opened Media

  const HEX_DIGITS := "0123456789abcdef"
  const MAX_SAFE_LENGTH := 64

  predicate SafeChar(c: char) {
    'a' <= c <= 'z' || '0' <= c <= '9' || c == '.' || c == '_' || c == '-'
  }

  predicate Safe(id: Id) {
    && 1 <= |id| <= MAX_SAFE_LENGTH
    && id[0] != '.'
    && forall i | 0 <= i < |id| :: SafeChar(id[i])
  }

  function Hex(bytes: Bytes): (s: string)
    ensures |s| == 2 * |bytes|
  {
    if bytes == [] then []
    else [HEX_DIGITS[bytes[0] / 16], HEX_DIGITS[bytes[0] % 16]] + Hex(bytes[1..])
  }

  function RecordFileName(utf8: string -> Bytes, id: Id): string {
    if Safe(id) then id + ".json" else "x-" + Hex(utf8(id)) + ".json"
  }

  /** The characters that every file system takes. */
  predicate IsPortable(c: char) {
    c in {'a', 'b', 'c', 'd', 'e', 'f', 'g', 'h', 'i', 'j', 'k', 'l', 'm', 'n', 'o', 'p', 'q', 'r', 's', 't', 'u', 'v', 'w', 'x', 'y', 'z',
          '0', '1', '2', '3', '4', '5', '6', '7', '8', '9', '.', '_', '-'}
  }

  lemma PortableExactlyWhen(c: char)
    ensures SafeChar(c) <==> IsPortable(c)
  {
  }

  /** An id names its file itself exactly if it has 1 to 64 portable characters, the first of them no dot. */
  lemma SafeExactlyWhen(id: Id)
    ensures Safe(id) <==> 1 <= |id| <= 64 && id[0] != '.' && forall i | 0 <= i < |id| :: IsPortable(id[i])
  {
    forall i | 0 <= i < |id| ensures SafeChar(id[i]) <==> IsPortable(id[i]) {
      PortableExactlyWhen(id[i]);
    }
  }

  /** Whatever the id, its file is a plain one of the records directory. */
  lemma RecordStaysInTheDirectory(utf8: string -> Bytes, id: Id)
    ensures var name := RecordFileName(utf8, id);
      |name| > 5 && name[|name| - 5..] == ".json" && name[0] != '.' && forall i | 0 <= i < |name| :: IsPortable(name[i])
  {
    var stem := if Safe(id) then id else "x-" + Hex(utf8(id));
    assert RecordFileName(utf8, id) == stem + ".json";
    SafeExactlyWhen(id);
    HexIsPortable(utf8(id));
    assert IsPortable('x') && IsPortable('-') by {
      PortableExactlyWhen('x');
      PortableExactlyWhen('-');
    }
    SuffixIsPortable();
  }

  lemma SuffixIsPortable()
    ensures forall i | 0 <= i < 5 :: IsPortable(".json"[i])
  {
    forall i | 0 <= i < 5 ensures IsPortable(".json"[i]) {
      PortableExactlyWhen(".json"[i]);
    }
  }

  lemma {:induction false} HexIsPortable(bytes: Bytes)
    ensures forall i | 0 <= i < |Hex(bytes)| :: IsPortable(Hex(bytes)[i])
  {
    if bytes != [] {
      HexIsPortable(bytes[1..]);
      PortableExactlyWhen(HEX_DIGITS[bytes[0] / 16]);
      PortableExactlyWhen(HEX_DIGITS[bytes[0] % 16]);
    }
  }

  ghost predicate Injective(utf8: string -> Bytes) {
    forall a, b :: utf8(a) == utf8(b) ==> a == b
  }

  lemma {:induction false} HexIsInjective(a: Bytes, b: Bytes)
    requires Hex(a) == Hex(b)
    ensures a == b
  {
    assert |a| == |b|;
    if a != [] {
      assert HEX_DIGITS[a[0] / 16] == Hex(a)[0] == Hex(b)[0] == HEX_DIGITS[b[0] / 16];
      assert HEX_DIGITS[a[0] % 16] == Hex(a)[1] == Hex(b)[1] == HEX_DIGITS[b[0] % 16];
      DigitsAreDistinct(a[0] / 16, b[0] / 16);
      DigitsAreDistinct(a[0] % 16, b[0] % 16);
      assert Hex(a[1..]) == Hex(a)[2..] && Hex(b[1..]) == Hex(b)[2..];
      HexIsInjective(a[1..], b[1..]);
    }
  }

  lemma DigitsAreDistinct(i: int, j: int)
    requires 0 <= i < 16 && 0 <= j < 16 && HEX_DIGITS[i] == HEX_DIGITS[j]
    ensures i == j
  {
    assert forall k | 0 <= k < 16 :: HEX_DIGITS[k] == if k < 10 then '0' + k as char else 'a' + (k - 10) as char;
  }

  /** A portable id that spells the encoding of another id: the one way two names collide. */
  predicate SpellsEncodingOf(utf8: string -> Bytes, a: Id, b: Id) {
    Safe(a) && !Safe(b) && a == "x-" + Hex(utf8(b))
  }

  lemma EqualStems(a: string, b: string)
    requires a + ".json" == b + ".json"
    ensures a == b
  {
    assert a == (a + ".json")[..|a + ".json"| - 5];
    assert b == (b + ".json")[..|b + ".json"| - 5];
  }

  /** Two ids share a file exactly when they are equal or one spells the other's encoding. */
  lemma CollisionsCharacterised(utf8: string -> Bytes, a: Id, b: Id)
    requires Injective(utf8)
    ensures RecordFileName(utf8, a) == RecordFileName(utf8, b)
       <==> a == b || SpellsEncodingOf(utf8, a, b) || SpellsEncodingOf(utf8, b, a)
  {
    if RecordFileName(utf8, a) == RecordFileName(utf8, b) {
      var stemA := if Safe(a) then a else "x-" + Hex(utf8(a));
      var stemB := if Safe(b) then b else "x-" + Hex(utf8(b));
      EqualStems(stemA, stemB);
      if !Safe(a) && !Safe(b) {
        assert Hex(utf8(a)) == stemA[2..] == stemB[2..] == Hex(utf8(b));
        HexIsInjective(utf8(a), utf8(b));
      }
    }
  }

  /** Generated ids are UUIDs, which never start with "x-": such ids never share a file. */
  lemma IdsWithoutThePrefixNeverCollide(utf8: string -> Bytes, a: Id, b: Id)
    requires Injective(utf8)
    requires !("x-" <= a) && !("x-" <= b) && a != b
    ensures RecordFileName(utf8, a) != RecordFileName(utf8, b)
  {
    CollisionsCharacterised(utf8, a, b);
  }

  /** The collision is real: the byte 0x41 makes "A" and "x-41" share one file. */
  lemma CollisionExample(utf8: string -> Bytes)
    requires utf8("A") == [0x41]
    ensures RecordFileName(utf8, "A") == RecordFileName(utf8, "x-41") == "x-41.json"
  {
    assert !SafeChar("A"[0]);
    assert Safe("x-41") by {
      assert forall i | 0 <= i < 4 :: SafeChar("x-41"[i]);
    }
    assert Hex([0x41]) == "41" by {
      assert Hex([0x41][1..]) == [];
    }
  }
}
