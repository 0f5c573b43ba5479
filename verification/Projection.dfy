/**
 * The projection: tables derived from the committed records, stamped with the state token they
 * were derived from. It is a cache, and must know when it no longer tells the truth.
 */
module Projection {
  import opened Media

  type Records = map<Id, Record>

  datatype MediaRow = MediaRow(record: Record, digest: Digest, absolutePath: Path, sizeBytes: int,
                               kind: MediaKind, fileName: string, folderPath: Path, caption: string)

  datatype TextRow = TextRow(id: Id, caption: string, fileName: string)

  datatype Tables = Tables(media: map<Id, MediaRow>, tags: set<(Id, string)>, text: seq<TextRow>)

  const EMPTY := Tables(map[], {}, [])

  function RowOf(record: Record): MediaRow {
    MediaRow(record, record.fingerprint.digest, record.identity.absolutePath, record.identity.sizeBytes,
             record.metadata.kind, record.metadata.fileName, record.metadata.folderPath, record.metadata.caption)
  }

  function TextOf(record: Record): TextRow {
    TextRow(record.id, record.metadata.caption, record.metadata.fileName)
  }

  ghost predicate Filed(records: Records) {
    forall id | id in records :: records[id].id == id
  }

  // ----- what the tables should hold -----

  ghost predicate OneRowEach(text: seq<TextRow>) {
    forall i, j | 0 <= i < j < |text| :: text[i].id != text[j].id
  }

  /** Exactly one text row for each record, and no other. */
  ghost predicate TextReflects(text: seq<TextRow>, records: Records) {
    && OneRowEach(text)
    && (forall i | 0 <= i < |text| :: text[i].id in records && text[i] == TextOf(records[text[i].id]))
    && (forall id | id in records :: TextOf(records[id]) in text)
  }

  /** The tables hold the rows derived from these records, and no others. */
  ghost predicate Reflects(tables: Tables, records: Records) {
    && tables.media.Keys == records.Keys
    && (forall id | id in records :: tables.media[id] == RowOf(records[id]))
    && (forall id, tag :: (id, tag) in tables.tags <==> id in records && tag in records[id].metadata.tags)
    && TextReflects(tables.text, records)
  }

  lemma ReflectsOnlyOne(tables: Tables, a: Records, b: Records)
    requires Reflects(tables, a) && Reflects(tables, b)
    ensures a == b
  {
    forall id | id in a ensures id in b && a[id] == b[id] {
      assert id in tables.media && RowOf(a[id]) == RowOf(b[id]);
    }
    forall id | id in b ensures id in a {
      assert id in tables.media.Keys;
    }
  }

  // ----- the statements -----

  function TagsOf(record: Record): set<(Id, string)> {
    set tag | tag in record.metadata.tags :: (record.id, tag)
  }

  function Inserted(t: Tables, record: Record): Tables {
    Tables(t.media[record.id := RowOf(record)], t.tags + TagsOf(record), t.text + [TextOf(record)])
  }

  function TextWithout(text: seq<TextRow>, id: Id): seq<TextRow> {
    if text == [] then []
    else TextWithout(text[..|text| - 1], id) + if text[|text| - 1].id == id then [] else [text[|text| - 1]]
  }

  function Deleted(t: Tables, id: Id): Tables {
    Tables(t.media - {id}, (set row | row in t.tags && row.0 != id), TextWithout(t.text, id))
  }

  lemma TextInserted(text: seq<TextRow>, records: Records, record: Record)
    requires TextReflects(text, records) && record.id !in records
    ensures TextReflects(text + [TextOf(record)], records[record.id := record])
  {
    var next, more := records[record.id := record], text + [TextOf(record)];
    assert more[|text|] == TextOf(record);
    forall id | id in next ensures TextOf(next[id]) in more {
      if id != record.id { assert TextOf(records[id]) in text; }
    }
  }

  lemma InsertedReflects(t: Tables, records: Records, record: Record)
    requires Reflects(t, records) && record.id !in records
    ensures Reflects(Inserted(t, record), records[record.id := record])
  {
    hide TextReflects, RowOf;
    TextInserted(t.text, records, record);
    var next := records[record.id := record];
    forall id, tag ensures (id, tag) in t.tags + TagsOf(record) <==> id in next && tag in next[id].metadata.tags {
      if id == record.id { assert (id, tag) !in t.tags; }
    }
  }

  lemma {:induction false} TextWithoutIs(text: seq<TextRow>, id: Id)
    requires OneRowEach(text)
    ensures forall row :: row in TextWithout(text, id) <==> row in text && row.id != id
    ensures OneRowEach(TextWithout(text, id))
  {
    if text != [] {
      var rest, last := text[..|text| - 1], text[|text| - 1];
      TextWithoutIs(rest, id);
      assert forall row :: row in text <==> row in rest || row == last;
      var left := TextWithout(rest, id);
      forall i | 0 <= i < |left| ensures left[i].id != last.id {
        assert left[i] in rest;
        var k :| 0 <= k < |rest| && rest[k] == left[i];
        assert text[k] == left[i];
      }
    }
  }

  lemma TextDeleted(text: seq<TextRow>, records: Records, id: Id)
    requires Filed(records) && TextReflects(text, records)
    ensures TextReflects(TextWithout(text, id), records - {id})
  {
    hide TextWithout;
    TextWithoutIs(text, id);
    var left := TextWithout(text, id);
    forall i | 0 <= i < |left| ensures left[i].id in records - {id} && left[i] == TextOf(records[left[i].id]) {
      assert left[i] in text;
    }
  }

  lemma DeletedReflects(t: Tables, records: Records, id: Id)
    requires Filed(records) && Reflects(t, records)
    ensures Reflects(Deleted(t, id), records - {id})
  {
    hide TextReflects, TextWithout, Filed, RowOf;
    TextDeleted(t.text, records, id);
  }

  // ----- batches -----

  /** How many statements replace the rows of these records. */
  function Effort(batch: seq<Record>): nat {
    if batch == [] then 0 else Effort(batch[..|batch| - 1]) + |batch[|batch| - 1].metadata.tags| + 3
  }

  lemma NoEffort()
    ensures Effort([]) == 0
  {
  }

  lemma {:induction false} EffortGrows(batch: seq<Record>, i: nat)
    requires i < |batch|
    ensures Effort(batch[..i + 1]) == Effort(batch[..i]) + |batch[i].metadata.tags| + 3 <= Effort(batch)
    decreases |batch| - i
  {
    assert batch[..i + 1][..i] == batch[..i];
    if i + 1 < |batch| {
      EffortGrows(batch, i + 1);
    } else {
      assert batch[..i + 1] == batch;
    }
  }

  /** The records after a batch of new versions; a later one of the same id wins. */
  function Updated(records: Records, batch: seq<Record>): Records {
    if batch == [] then records
    else
      var last := batch[|batch| - 1];
      Updated(records, batch[..|batch| - 1])[last.id := last]
  }

  function Applied(t: Tables, batch: seq<Record>): Tables {
    if batch == [] then t
    else
      var last := batch[|batch| - 1];
      Inserted(Deleted(Applied(t, batch[..|batch| - 1]), last.id), last)
  }

  /** Applying a batch row by row gives what a rebuild from the updated records would. */
  lemma {:induction false} ApplyingEqualsRebuilding(t: Tables, records: Records, batch: seq<Record>)
    requires Filed(records) && Reflects(t, records)
    ensures Filed(Updated(records, batch)) && Reflects(Applied(t, batch), Updated(records, batch))
  {
    hide Reflects, Inserted, Deleted;
    if batch != [] {
      var rest, last := batch[..|batch| - 1], batch[|batch| - 1];
      ApplyingEqualsRebuilding(t, records, rest);
      var before := Updated(records, rest);
      DeletedReflects(Applied(t, rest), before, last.id);
      InsertedReflects(Deleted(Applied(t, rest), last.id), before - {last.id}, last);
      assert (before - {last.id})[last.id := last] == before[last.id := last];
    }
  }

  /** Applying a batch to tables that tell the truth keeps them true exactly when it carries current versions. */
  lemma ApplyingKeepsTruthExactlyWhen(t: Tables, records: Records, batch: seq<Record>)
    requires Filed(records) && Reflects(t, records)
    ensures Reflects(Applied(t, batch), records) <==> Updated(records, batch) == records
  {
    ApplyingEqualsRebuilding(t, records, batch);
    if Reflects(Applied(t, batch), records) {
      ReflectsOnlyOne(Applied(t, batch), records, Updated(records, batch));
    }
  }

  // ----- the durable store, as the projection sees it -----

  /** What others do to the store: a commit works on the checkout, then the revision moves, or the checkout is restored. */
  datatype Change = Unsettles(checkout: Records) | Publishes | Restores

  function RecordIn(records: Records, id: Id): Option<Record> {
    if id in records then Some(records[id]) else None
  }

  /** Every one of these records is the one `records` has. */
  predicate Among(some: Records, records: Records) {
    forall id | id in some :: RecordIn(records, id) == Some(some[id])
  }

  lemma NothingAmong(records: Records)
    ensures Among(map[], records)
  {
  }

  lemma OneMoreAmong(some: Records, records: Records, record: Record)
    requires record.id !in some
    ensures Among(some[record.id := record], records) <==> Among(some, records) && RecordIn(records, record.id) == Some(record)
  {
    assert forall id | id in some :: some[record.id := record][id] == some[id];
  }

  /**
   * The durable store as its readers see it: `records` is the committed revision and `token`
   * names it, but records are listed and loaded from the checkout, which a commit changes before
   * it moves the revision. `changes` and `answers` say what others do before the n-th question
   * and whether it is answered.
   */
  class DurableStore {
    const changes: nat -> seq<Change>
    const answers: nat -> bool
    var questions: nat
    var records: Records
    var checkout: Records
    var token: nat
    ghost var misread: nat    // how many questions about records the checkout answered otherwise than the revision

    constructor (changes: nat -> seq<Change>, answers: nat -> bool)
      requires forall n: nat, c | c in changes(n) && c.Unsettles? :: Filed(c.checkout)
      ensures Valid() && records == checkout == map[] && token == 1 && questions == misread == 0
      ensures this.changes == changes && this.answers == answers
    {
      this.changes, this.answers, questions, records, checkout, token := changes, answers, 0, map[], map[], 1;
      misread := 0;
    }

    ghost predicate Valid()
      reads this
    {
      Filed(records) && Filed(checkout) && forall n: nat, c | c in changes(n) && c.Unsettles? :: Filed(c.checkout)
    }

    /** Every question is answered. */
    ghost predicate Answering() { forall n: nat :: answers(n) }

    /** Questions `from` to `to` were all answered. */
    ghost predicate Answered(from: nat, to: nat) { forall n: nat | from <= n < to :: answers(n) }

    /** Nobody else did anything before questions `from` to `to`. */
    ghost predicate Undisturbed(from: nat, to: nat) { forall n: nat | from <= n < to :: changes(n) == [] }

    /** Nobody else does anything from the `n`th question on. */
    ghost predicate Calm(n: nat) { forall m: nat | n <= m :: changes(m) == [] }

    /** A commit of somebody else changes the checkout between the `n`th question and the next one, and nothing else happens. */
    predicate Unsettling(n: nat) { changes(n) == [] && |changes(n + 1)| == 1 && changes(n + 1)[0].Unsettles? }

    /** Then a rebuild that starts with the `n`th question reads what that commit put into the checkout. */
    ghost predicate Steered(n: nat, ok: bool, read: Records, token: Option<nat>, was: nat)
      reads `token, `checkout
    {
      Unsettling(n) && Calm(n + 2) ==>
        ok && read == checkout == changes(n + 1)[0].checkout && token == Some(this.token) && this.token == was
    }

    method Change(c: Change)
      requires Valid() && (c.Unsettles? ==> Filed(c.checkout))
      modifies `records, `checkout, `token
      ensures Valid() && old(token) <= token && (token == old(token) ==> records == old(records))
      ensures match c
        case Unsettles(next) => checkout == next && token == old(token)
        case Publishes => records == checkout == old(checkout) && token == old(token) + 1
        case Restores => checkout == records && token == old(token)
    {
      match c
      case Unsettles(next) => checkout := next;
      case Publishes => records, token := checkout, token + 1;
      case Restores => checkout := records;
    }

    /** A commit of this process, which asks nothing in between. */
    method Commit(next: Records)
      requires Valid() && Filed(next)
      modifies `records, `checkout, `token
      ensures Valid() && records == checkout == next && token == old(token) + 1
    {
      Change(Unsettles(next));
      Change(Publishes);
    }

    /** A question; what others do comes first, and it may go unanswered. */
    method Ask() returns (answered: bool)
      requires Valid()
      modifies `questions, `records, `checkout, `token
      ensures Valid() && old(token) <= token && (token == old(token) ==> records == old(records))
      ensures questions == old(questions) + 1 && answered == answers(old(questions))
      ensures changes(old(questions)) == [] ==> checkout == old(checkout) && token == old(token)
      ensures |changes(old(questions))| == 1 && changes(old(questions))[0].Unsettles? ==>
        checkout == changes(old(questions))[0].checkout && token == old(token)
      ensures changes(old(questions)) == [Restores] ==> checkout == records && token == old(token)
    {
      var due := changes(questions);
      for i := 0 to |due|
        invariant Valid() && old(token) <= token && (token == old(token) ==> records == old(records))
        invariant questions == old(questions) && (i == 0 ==> checkout == old(checkout) && token == old(token))
        invariant i == |due| == 1 && due[0].Unsettles? ==> checkout == due[0].checkout && token == old(token)
        invariant i == |due| == 1 && due[0].Restores? ==> checkout == records && token == old(token)
      {
        assert due[i] in changes(questions);
        Change(due[i]);
      }
      answered := answers(questions);
      questions := questions + 1;
    }

    method StateToken() returns (current: Option<nat>)
      requires Valid()
      modifies `questions, `records, `checkout, `token
      ensures Valid() && old(token) <= token && (token == old(token) ==> records == old(records))
      ensures current == if answers(old(questions)) then Some(token) else None
      ensures questions == old(questions) + 1
      ensures changes(old(questions)) == [] || changes(old(questions)) == [Restores] ==> token == old(token)
      ensures changes(old(questions)) == [] ==> checkout == old(checkout)
    {
      var answered := Ask();
      current := if answered then Some(token) else None;
    }

    method ListIds() returns (ids: Option<seq<Id>>)
      requires Valid()
      modifies this
      ensures Valid() && old(token) <= token && (token == old(token) ==> records == old(records))
      ensures misread == old(misread) + (if checkout.Keys == records.Keys then 0 else 1)
      ensures ids.Some? <==> answers(old(questions))
      ensures ids.Some? ==> (forall id :: id in ids.value <==> id in checkout) && forall i, j | 0 <= i < j < |ids.value| :: ids.value[i] != ids.value[j]
      ensures questions == old(questions) + 1
      ensures |changes(old(questions))| == 1 && changes(old(questions))[0].Unsettles? ==>
        checkout == changes(old(questions))[0].checkout && token == old(token)
    {
      var answered := Ask();
      if checkout.Keys != records.Keys {
        misread := misread + 1;
      }
      if !answered {
        return None;
      }
      var left, list: seq<Id> := checkout.Keys, [];
      while left != {}
        invariant left <= checkout.Keys && forall id :: id in list <==> id in checkout && id !in left
        invariant forall i, j | 0 <= i < j < |list| :: list[i] != list[j]
        decreases |left|
      {
        var id: Id :| id in left;
        list, left := list + [id], left - {id};
      }
      ids := Some(list);
    }

    method Load(id: Id) returns (record: Option<Record>)
      requires Valid()
      modifies this
      ensures Valid() && old(token) <= token && (token == old(token) ==> records == old(records))
      ensures misread == old(misread) + (if RecordIn(checkout, id) == RecordIn(records, id) then 0 else 1)
      ensures record == if answers(old(questions)) then RecordIn(checkout, id) else None
      ensures record.Some? ==> record.value.id == id
      ensures questions == old(questions) + 1
      ensures changes(old(questions)) == [] ==> checkout == old(checkout) && token == old(token)
    {
      var answered := Ask();
      if RecordIn(checkout, id) != RecordIn(records, id) {
        misread := misread + 1;
      }
      record := if answered then RecordIn(checkout, id) else None;
    }
  }

  // ----- the projection -----

  datatype Step = Rebuild | Apply(batch: seq<Record>) | Commit(next: Records) | Other(change: Change)

  /** What the projection and the store hold between two steps. */
  datatype View = View(tables: Tables, token: Option<nat>, records: Records, checkout: Records, current: nat)

  /** What a step does to both: who changes what, and what stays. */
  ghost predicate Stepped(step: Step, a: View, b: View) {
    match step
    case Rebuild =>
      (b.tables, b.token) == (a.tables, a.token)
      || (b.token.Some? && a.current <= b.token.value <= b.current && exists read :: Reflects(b.tables, read))
    case Apply(batch) =>
      b == a || b == a.(tables := Applied(a.tables, batch))
    case Commit(next) =>
      b == View(a.tables, a.token, next, next, a.current + 1)
    case Other(Unsettles(checkout)) =>
      b == a.(checkout := checkout)
    case Other(Publishes) =>
      b == a.(records := a.checkout, current := a.current + 1)
    case Other(Restores) =>
      b == a.(checkout := a.records)
  }

  class ProjectionDatabase {
    const fails: nat -> bool
    var open: bool
    var statements: nat
    var tables: Tables
    var token: Option<nat>

    constructor (fails: nat -> bool)
      ensures open && tables == EMPTY && token == None && this.fails == fails
    {
      this.fails, open, statements, tables, token := fails, true, 0, EMPTY, None;
    }

    /** When the recorded token is the store's, the tables hold exactly its records. */
    ghost predicate Truthful(store: DurableStore)
      reads this, store
    {
      && (token.Some? ==> token.value <= store.token)
      && (token == Some(store.token) ==> Reflects(tables, store.records))
    }

    method Execute() returns (ok: bool)
      modifies `statements
      ensures ok == !fails(old(statements)) && statements == old(statements) + 1
    {
      ok := !fails(statements);
      statements := statements + 1;
    }

    /** Statements `from` to `to` all worked. */
    ghost predicate Worked(from: nat, to: nat) { forall n: nat | from <= n < to :: !fails(n) }

    /** These tables hold the columns of this record beside everything that `t` holds. */
    ghost predicate HasRowsOf(now: Tables, t: Tables, record: Record) {
      && now.media == t.media[record.id := MediaRow(record, record.fingerprint.digest, record.identity.absolutePath, record.identity.sizeBytes,
           record.metadata.kind, record.metadata.fileName, record.metadata.folderPath, record.metadata.caption)]
      && now.text == t.text + [TextRow(record.id, record.metadata.caption, record.metadata.fileName)]
      && (forall id, tag :: (id, tag) in now.tags <==> (id, tag) in t.tags || (id == record.id && tag in record.metadata.tags))
    }

    /** A statement failed, a question was not answered, or somebody else did something in between. */
    ghost predicate Obstructed(store: DurableStore, from: nat, asked: nat)
      reads `statements, store`questions
    {
      !Worked(from, statements) || !store.Answered(asked, store.questions) || !store.Undisturbed(asked, store.questions)
    }

    /**
     * Adds the rows of one record to the tables of the running transaction: one statement for the
     * media row, one for each tag and one for the text row. Any failure gives the whole record up.
     */
    method InsertRecord(t: Tables, record: Record) returns (next: Option<Tables>)
      modifies `statements
      ensures next.Some? <==> record.id !in t.media && Worked(old(statements), old(statements) + |record.metadata.tags| + 2)
      ensures next.Some? ==> next.value == Inserted(t, record) && statements == old(statements) + |record.metadata.tags| + 2
      ensures next.Some? ==> HasRowsOf(next.value, t, record)
      ensures old(statements) <= statements
      ensures next.None? ==> record.id in t.media || !Worked(old(statements), statements)
    {
      var ok := Execute();
      if !ok || record.id in t.media {
        return None;
      }
      var tags := t.tags;
      for i := 0 to |record.metadata.tags|
        invariant tags == t.tags + set tag | tag in record.metadata.tags[..i] :: (record.id, tag)
        invariant statements == old(statements) + i + 1 && Worked(old(statements), statements)
      {
        ok := Execute();
        if !ok {
          return None;
        }
        ghost var before := record.metadata.tags[..i];
        assert record.metadata.tags[..i + 1] == before + [record.metadata.tags[i]];
        tags := tags + {(record.id, record.metadata.tags[i])};
      }
      ok := Execute();
      if !ok {
        return None;
      }
      assert record.metadata.tags[..|record.metadata.tags|] == record.metadata.tags;
      next := Some(Tables(t.media[record.id := RowOf(record)], tags, t.text + [TextOf(record)]));
    }

    /** No statement fails. */
    ghost predicate Working() { forall n: nat :: !fails(n) }

    /**
     * Replaces everything, in one transaction, and stamps it with the token read before the
     * records. `read` are the records as they were loaded, one by one.
     */
    method RebuildFrom(store: DurableStore) returns (ok: bool, ghost read: Records)
      requires store.Valid()
      modifies `statements, `tables, `token, store
      ensures store.Valid() && old(store.token) <= store.token && (store.token == old(store.token) ==> store.records == old(store.records))
      ensures !ok ==> tables == old(tables) && token == old(token)
      ensures ok ==> token.Some? && old(store.token) <= token.value <= store.token && Reflects(tables, read)
      // With the token unchanged it is exact if and only if the checkout answered every question
      // about records as the revision would have.
      ensures old(store.misread) <= store.misread
      ensures ok && token == Some(store.token) ==> (Reflects(tables, store.records) <==> store.misread == old(store.misread))
      ensures old(Truthful(store)) ==>
        (Truthful(store) <==> (ok && token == Some(store.token) ==> store.misread == old(store.misread)))
      ensures open && Working() && store.Answering() ==> store.Steered(old(store.questions), ok, read, token, old(store.token))
      ensures ok ==> old(store.questions) + 2 <= store.questions
      // It succeeds only if everything worked, and fails only if something did not, or was in the way.
      ensures ok ==> open && Worked(old(statements), statements) && store.Answered(old(store.questions), store.questions)
      ensures !ok && open ==> Obstructed(store, old(statements), old(store.questions))
    {
      hide Reflects, Filed, DurableStore.Valid, DurableStore.Calm;
      if !open {
        return false, map[];
      }
      var current, filled;
      current, filled, read := Gather(store);
      if current.None? {
        return false, read;
      }
      ok := Execute();
      if ok {
        tables, token := filled, current;
        ReadExactly(tables, read, store.records);
      }
    }

    /** The token first, then the listed records, in tables of their own. */
    method Gather(store: DurableStore) returns (current: Option<nat>, filled: Tables, ghost read: Records)
      requires store.Valid() && open
      modifies `statements, store
      ensures store.Valid() && old(store.token) <= store.token && (store.token == old(store.token) ==> store.records == old(store.records))
      ensures current.Some? ==> old(store.token) <= current.value <= store.token && Reflects(filled, read)
      ensures old(store.misread) <= store.misread
      ensures current == Some(store.token) ==> (read == store.records <==> store.misread == old(store.misread))
      ensures Working() && store.Answering() ==> store.Steered(old(store.questions), current.Some?, read, current, old(store.token))
      ensures current.Some? ==> old(store.questions) + 2 <= store.questions
      ensures old(statements) <= statements
      ensures current.Some? ==> Worked(old(statements), statements) && store.Answered(old(store.questions), store.questions)
      ensures current.None? ==> Obstructed(store, old(statements), old(store.questions))
    {
      hide Reflects, Filed, DurableStore.Valid, Truthful, Among, RecordIn;
      current, filled, read := None, EMPTY, map[];
      var started := store.StateToken();
      if started.None? {
        return;
      }
      var ids := store.ListIds();
      if ids.None? {
        return;
      }
      var ok := Execute();
      if !ok {
        return;
      }
      ghost var listed := store.checkout;
      var tables;
      tables, read := FillFrom(store, ids.value);
      if tables.Some? {
        current, filled := started, tables.value;
        SameRecords(read, listed, store.records, ids.value);
        SameRecords(read, listed, store.checkout, ids.value);
      }
    }

    lemma SameRecords(read: Records, listed: Records, records: Records, ids: seq<Id>)
      requires forall id :: id in ids <==> id in listed
      requires forall id :: id in read <==> id in ids
      ensures read == records <==> listed.Keys == records.Keys && Among(read, records)
    {
      assert read.Keys == listed.Keys;
    }

    lemma ReadExactly(t: Tables, read: Records, records: Records)
      requires Reflects(t, read)
      ensures Reflects(t, records) <==> read == records
    {
      hide Reflects;
      if Reflects(t, records) {
        ReflectsOnlyOne(t, read, records);
      }
    }

    /** Loads one record and inserts it. */
    method AddRecord(store: DurableStore, id: Id, t: Tables) returns (next: Option<Tables>, ghost record: Record)
      requires store.Valid() && id !in t.media
      modifies `statements, store
      ensures store.Valid() && old(store.token) <= store.token && (store.token == old(store.token) ==> store.records == old(store.records))
      ensures store.questions == old(store.questions) + 1 && old(statements) <= statements
      ensures store.misread == old(store.misread) + (if RecordIn(store.checkout, id) == RecordIn(store.records, id) then 0 else 1)
      ensures next.Some? ==> record.id == id && RecordIn(store.checkout, id) == Some(record) && next.value == Inserted(t, record)
      ensures next.Some? ==> Worked(old(statements), statements) && store.answers(old(store.questions))
      ensures next.None? ==> id !in store.checkout || !Worked(old(statements), statements) || !store.answers(old(store.questions))
      ensures store.changes(old(store.questions)) == [] ==> store.checkout == old(store.checkout) && store.token == old(store.token)
    {
      hide Inserted, HasRowsOf, Filed;
      var loaded := store.Load(id);
      if loaded.None? {
        record := *;
        return None, record;
      }
      record := loaded.value;
      next := InsertRecord(t, loaded.value);
    }

    /** Loads and inserts the listed records into empty tables. */
    method FillFrom(store: DurableStore, ids: seq<Id>) returns (filled: Option<Tables>, ghost read: Records)
      requires store.Valid()
      requires forall i, j | 0 <= i < j < |ids| :: ids[i] != ids[j]
      modifies `statements, store
      ensures store.Valid() && old(store.token) <= store.token && (store.token == old(store.token) ==> store.records == old(store.records))
      ensures filled.Some? ==> Reflects(filled.value, read) && forall id :: id in read <==> id in ids
      ensures old(store.misread) <= store.misread && old(store.questions) <= store.questions && old(statements) <= statements
      ensures filled.Some? ==> Worked(old(statements), statements) && store.Answered(old(store.questions), store.questions)
      ensures filled.None? && (forall id | id in ids :: id in old(store.checkout)) ==> Obstructed(store, old(statements), old(store.questions))
      ensures filled.Some? && store.token == old(store.token) ==>
        (store.misread == old(store.misread) <==> Among(read, store.records))
      ensures Working() && store.Answering() && store.Calm(old(store.questions)) && (forall id | id in ids :: id in old(store.checkout)) ==>
        filled.Some? && store.checkout == old(store.checkout) && store.token == old(store.token)
        && Among(read, store.checkout)
    {
      hide Reflects, Filed, Among, Inserted, TagsOf, RowOf, HasRowsOf, DurableStore.Unsettling, DurableStore.Steered;
      var t := EMPTY;
      read := map[];
      EmptyReflects();
      NothingAmong(store.records);
      NothingAmong(store.checkout);
      ghost var calm := Working() && store.Answering() && store.Calm(store.questions) && forall id | id in ids :: id in store.checkout;
      for i := 0 to |ids|
        invariant store.Valid() && old(store.token) <= store.token && (store.token == old(store.token) ==> store.records == old(store.records))
        invariant Reflects(t, read) && (forall id :: id in read <==> id in ids[..i])
        invariant old(store.misread) <= store.misread && old(store.questions) <= store.questions
        invariant store.token == old(store.token) ==>
          (store.misread == old(store.misread) <==> Among(read, store.records))
        invariant old(statements) <= statements
        invariant Worked(old(statements), statements) && store.Answered(old(store.questions), store.questions)
        invariant store.Undisturbed(old(store.questions), store.questions) ==> store.checkout == old(store.checkout)
        invariant calm ==> store.checkout == old(store.checkout) && store.token == old(store.token)
        invariant calm ==> Among(read, store.checkout)
      {
        MediaIs(t, read, ids[i]);
        var next, record := AddRecord(store, ids[i], t);
        if next.None? {
          return None, read;
        }
        InsertedReflects(t, read, record);
        OneMoreAmong(read, store.records, record);
        OneMoreAmong(read, store.checkout, record);
        t, read := next.value, read[record.id := record];
        assert ids[..i + 1] == ids[..i] + [ids[i]];
      }
      filled := Some(t);
    }

    /** Deletes the rows of the record's id and inserts its own. */
    method ReplaceRecord(t: Tables, record: Record) returns (next: Option<Tables>)
      modifies `statements
      ensures next.Some? <==> Worked(old(statements), old(statements) + |record.metadata.tags| + 3)
      ensures next.Some? ==> next.value == Inserted(Deleted(t, record.id), record) && statements == old(statements) + |record.metadata.tags| + 3
    {
      hide Inserted, TextWithout, HasRowsOf;
      var ok := Execute();
      if !ok {
        return None;
      }
      next := InsertRecord(Deleted(t, record.id), record);
    }

    /**
     * Replaces the rows of these records, in one transaction; the token stays. It succeeds exactly
     * if the database is open and every statement works: to begin, to delete and insert each record,
     * and to commit.
     */
    method ApplyRecords(batch: seq<Record>) returns (ok: bool)
      modifies `statements, `tables
      ensures ok ==> tables == Applied(old(tables), batch)
      ensures !ok ==> tables == old(tables)
      ensures ok <==> open && (batch == [] || Worked(old(statements), old(statements) + Effort(batch) + 2))
      ensures ok ==> statements == old(statements) + if batch == [] then 0 else Effort(batch) + 2
    {
      hide Effort, Inserted, Deleted, HasRowsOf;
      if !open {
        return false;
      }
      if batch == [] {
        return true;
      }
      ok := Execute();
      if !ok {
        return;
      }
      var t := tables;
      assert Effort([]) == 0 && batch[..0] == [] by { NoEffort(); }
      for i := 0 to |batch|
        invariant tables == old(tables) && t == Applied(tables, batch[..i])
        invariant statements == old(statements) + Effort(batch[..i]) + 1 && Worked(old(statements), statements)
      {
        EffortGrows(batch, i);
        assert batch[..i + 1][..i] == batch[..i];
        var next := ReplaceRecord(t, batch[i]);
        if next.None? {
          return false;
        }
        t := next.value;
      }
      assert batch[..|batch|] == batch;
      ok := Execute();
      if ok {
        tables := t;
      }
    }

    /** Only a projection that can show the store's own token is fresh. */
    method IsStale(store: DurableStore) returns (stale: bool)
      requires store.Valid()
      modifies `statements, store
      ensures store.Valid() && old(store.token) <= store.token && (store.token == old(store.token) ==> store.records == old(store.records))
      ensures !stale <==> open && !fails(old(statements)) && store.answers(old(store.questions)) && token == Some(store.token)
      ensures open && Working() && store.Answering() && store.changes(old(store.questions)) == [] && token == Some(old(store.token)) ==> !stale
      ensures store.changes(old(store.questions)) == [] ==> store.token == old(store.token) && store.checkout == old(store.checkout)
      ensures !stale && old(Truthful(store)) ==> Reflects(tables, store.records)
    {
      var read := Execute();
      if !open || !read {
        return true;
      }
      var current := store.StateToken();
      stale := current.None? || token.None? || token != current;
    }

    function Shown(store: DurableStore): View
      reads this, store
    {
      View(tables, token, store.records, store.checkout, store.token)
    }

    /**
     * Over every run of rebuilds, batches, commits and what others do in between, a projection
     * that is not stale tells the truth, given that batches applied to a projection that is not
     * stale carry current versions and that no rebuild that is not stale was answered out of the
     * middle of a commit. `trace` shows every step of the run.
     */
    method Run(store: DurableStore, steps: seq<Step>) returns (ghost honest: bool, ghost trace: seq<View>)
      requires store.Valid() && Truthful(store)
      requires forall s | s in steps && s.Commit? :: Filed(s.next)
      requires forall s | s in steps && s.Other? && s.change.Unsettles? :: Filed(s.change.checkout)
      modifies this, store
      ensures honest ==> Truthful(store)
      ensures |trace| == |steps| + 1 && trace[0] == old(Shown(store)) && trace[|steps|] == Shown(store)
      ensures forall i | 0 <= i < |steps| :: Stepped(steps[i], trace[i], trace[i + 1])
    {
      hide Reflects, Filed, Applied, Updated;
      honest, trace := true, [Shown(store)];
      for i := 0 to |steps|
        invariant store.Valid() && (honest ==> Truthful(store))
        invariant |trace| == i + 1 && trace[0] == old(Shown(store)) && trace[i] == Shown(store)
        invariant forall k | 0 <= k < i :: Stepped(steps[k], trace[k], trace[k + 1])
      {
        assert steps[i] in steps;
        match steps[i] {
        case Rebuild =>
          ghost var misread := store.misread;
          var ok, read := RebuildFrom(store);
          honest := honest && (ok && token == Some(store.token) ==> store.misread == misread);
        case Commit(next) => store.Commit(next);
        case Other(change) => store.Change(change);
        case Apply(batch) =>
          honest := honest && (token != Some(store.token) || Updated(store.records, batch) == store.records);
          if honest && token == Some(store.token) {
            ApplyingKeepsTruthExactlyWhen(tables, store.records, batch);
          }
          var ok := ApplyRecords(batch);
        }
        trace := trace + [Shown(store)];
      }
    }
  }

  /**
   * A rebuild lists and loads a record that a commit in progress put into the checkout; the commit
   * fails and restores it. The projection is not stale, and holds a record that was never committed.
   */
  method ReadingACommitInProgress(record: Record) returns (database: ProjectionDatabase, store: DurableStore, stale: bool)
    ensures !stale && !Reflects(database.tables, store.records) && store.checkout == store.records
  {
    hide Reflects, Filed;
    store := new DurableStore(n => if n == 1 then [Unsettles(map[record.id := record])] else [], _ => true) by { OneIsFiled(record); }
    database := new ProjectionDatabase(_ => false);
    var ok, read := database.RebuildFrom(store);
    store.Change(Restores);
    assert record.id in read;
    database.ReadExactly(database.tables, read, store.records);
    stale := database.IsStale(store);
  }

  lemma OneIsFiled(record: Record)
    ensures Filed(map[record.id := record])
  {
  }

  lemma EmptyReflects()
    ensures Reflects(EMPTY, map[])
  {
  }

  lemma MediaIs(t: Tables, records: Records, id: Id)
    requires Reflects(t, records)
    ensures id in t.media <==> id in records
  {
    assert t.media.Keys == records.Keys;
  }
}
