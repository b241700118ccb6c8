/**
 * The person store: one table, `user_table`, mapping the text form of each
 * person's id to that person's record. Every write transaction
 * (`begin_write ... commit`) is one assignment of the store's contents;
 * reads iterate the keys in ascending order.
 */
module Database {

  import opened Optional
  import opened Uuids
  import opened Domain
  import opened Similarity
  import opened KeyOrder

  /**
   * The contents of the store file: whether the table has been created yet,
   * its records by key, and its keys in iteration order (the index a range
   * scan walks).
   */
  datatype Db = Db(tableExists: bool, table: map<string, Person>, order: seq<string>)

  /** A store file no transaction has written to. */
  const EmptyDb: Db := Db(false, map[], [])

  /**
   * What every committed state satisfies: no records before the table exists,
   * the index lists each key exactly once in ascending order, and each record
   * is filed under the text form of its own id.
   */
  ghost predicate DbValid(db: Db)
  {
    && (!db.tableExists ==> db.table == map[])
    && StrictlySorted(db.order)
    && |db.order| == |db.table|
    && (forall k :: k in db.order <==> k in db.table)
    && (forall k :: k in db.table ==> UuidToString(db.table[k].id) == k)
  }

  /** Every stored person has at least one embedding. */
  ghost predicate AllNonEmpty(db: Db)
  {
    forall k :: k in db.table ==> db.table[k].embeddings != []
  }

  /** The records in key order: what a full range scan yields. */
  ghost function Records(db: Db): seq<Person>
    requires DbValid(db)
  {
    seq(|db.order|, i requires 0 <= i < |db.order| => db.table[db.order[i]])
  }

  /** Some embedding of `p` is strictly more similar to `query` than `threshold`. */
  predicate Qualifies(p: Person, query: Embedding, threshold: real, sim: Similarity)
  {
    exists i :: 0 <= i < |p.embeddings| && sim(p.embeddings[i], query) > threshold
  }

  /** The first person in `people` that qualifies: first match wins, not best match. */
  ghost function FirstMatch(people: seq<Person>, query: Embedding, threshold: real, sim: Similarity): Option<Person>
  {
    if people == [] then None
    else if Qualifies(people[0], query, threshold, sim) then Some(people[0])
    else FirstMatch(people[1..], query, threshold, sim)
  }

  lemma {:induction false} FirstMatchNone(people: seq<Person>, query: Embedding, threshold: real, sim: Similarity)
    ensures FirstMatch(people, query, threshold, sim).None?
        <==> forall i :: 0 <= i < |people| ==> !Qualifies(people[i], query, threshold, sim)
  {
    if people != [] {
      FirstMatchNone(people[1..], query, threshold, sim);
      assert forall i :: 1 <= i < |people| ==> people[i] == people[1..][i - 1];
    }
  }

  lemma {:induction false} FirstMatchFound(people: seq<Person>, query: Embedding, threshold: real, sim: Similarity) returns (i: nat)
    requires FirstMatch(people, query, threshold, sim).Some?
    ensures i < |people| && people[i] == FirstMatch(people, query, threshold, sim).value
    ensures Qualifies(people[i], query, threshold, sim)
    ensures forall j :: 0 <= j < i ==> !Qualifies(people[j], query, threshold, sim)
  {
    if Qualifies(people[0], query, threshold, sim) {
      i := 0;
    } else {
      var i' := FirstMatchFound(people[1..], query, threshold, sim);
      i := i' + 1;
      assert forall j :: 1 <= j < i ==> people[j] == people[1..][j - 1];
    }
  }

  /** The first qualifying person is the one returned. */
  lemma {:induction false} FirstMatchOfFirstQualifying(people: seq<Person>, query: Embedding, threshold: real, sim: Similarity, i: nat)
    requires i < |people| && Qualifies(people[i], query, threshold, sim)
    requires forall j :: 0 <= j < i ==> !Qualifies(people[j], query, threshold, sim)
    ensures FirstMatch(people, query, threshold, sim) == Some(people[i])
  {
    if i > 0 {
      assert forall j :: 0 <= j < i - 1 ==> people[1..][j] == people[j + 1];
      FirstMatchOfFirstQualifying(people[1..], query, threshold, sim, i - 1);
    }
  }

  /** No match exactly when no stored record qualifies. */
  lemma MatchNoneInKeyOrder(db: Db, query: Embedding, threshold: real, sim: Similarity)
    requires DbValid(db)
    ensures FirstMatch(Records(db), query, threshold, sim).None?
        <==> forall k :: k in db.table ==> !Qualifies(db.table[k], query, threshold, sim)
  {
    var people := Records(db);
    FirstMatchNone(people, query, threshold, sim);
    if FirstMatch(people, query, threshold, sim).None? {
      forall k | k in db.table ensures !Qualifies(db.table[k], query, threshold, sim) {
        assert k in db.order;
        var j :| 0 <= j < |db.order| && db.order[j] == k;
        assert people[j] == db.table[k];
      }
    } else {
      var i := FirstMatchFound(people, query, threshold, sim);
      assert db.order[i] in db.order;
      assert people[i] == db.table[db.order[i]];
    }
  }

  /**
   * A match is a stored record, filed under its own id, that qualifies, and
   * no record under a smaller key qualifies.
   */
  lemma MatchSomeInKeyOrder(db: Db, query: Embedding, threshold: real, sim: Similarity)
    requires DbValid(db)
    requires FirstMatch(Records(db), query, threshold, sim).Some?
    ensures var p := FirstMatch(Records(db), query, threshold, sim).value;
      && UuidToString(p.id) in db.table
      && db.table[UuidToString(p.id)] == p
      && Qualifies(p, query, threshold, sim)
      && forall k :: k in db.table && KeyLess(k, UuidToString(p.id)) ==> !Qualifies(db.table[k], query, threshold, sim)
  {
    var people := Records(db);
    var i := FirstMatchFound(people, query, threshold, sim);
    var key := db.order[i];
    assert key in db.order;
    assert people[i] == db.table[key];
    forall k | k in db.table && KeyLess(k, key)
      ensures !Qualifies(db.table[k], query, threshold, sim)
    {
      assert k in db.order;
      var j :| 0 <= j < |db.order| && db.order[j] == k;
      if j == i {
        KeyLessIrreflexive(k);
      } else if j > i {
        KeyLessAsymmetric(key, k);
      } else {
        assert people[j] == db.table[k];
      }
    }
  }

  /** When every stored record is listed, each once, in key order. */
  lemma RecordsInKeyOrder(db: Db)
    requires DbValid(db)
    ensures |Records(db)| == |db.table|
    ensures forall i :: 0 <= i < |Records(db)| ==>
      UuidToString(Records(db)[i].id) in db.table && db.table[UuidToString(Records(db)[i].id)] == Records(db)[i]
    ensures forall k :: k in db.table ==> db.table[k] in Records(db)
    ensures forall i, j :: 0 <= i < j < |Records(db)| ==>
      KeyLess(UuidToString(Records(db)[i].id), UuidToString(Records(db)[j].id))
  {
    var people := Records(db);
    forall k | k in db.table ensures db.table[k] in people {
      assert k in db.order;
      var i :| 0 <= i < |db.order| && db.order[i] == k;
      assert people[i] == db.table[k];
    }
  }

  /**
   * The cosine guards make a query of the wrong length, or of zero magnitude,
   * match nothing under a non-negative threshold.
   */
  lemma DegenerateQueryMatchesNothing(db: Db, query: Embedding, threshold: real, sim: Similarity)
    requires DbValid(db) && CosineGuards(sim) && threshold >= 0.0
    requires SquaredNorm(query) == 0.0
          || forall k, e :: k in db.table && e in db.table[k].embeddings ==> |e| != |query|
    ensures FirstMatch(Records(db), query, threshold, sim) == None
  {
    MatchNoneInKeyOrder(db, query, threshold, sim);
    forall k | k in db.table ensures !Qualifies(db.table[k], query, threshold, sim) {
      var embs := db.table[k].embeddings;
      forall i | 0 <= i < |embs| ensures sim(embs[i], query) <= threshold {
        assert embs[i] in db.table[k].embeddings;
      }
    }
  }

  /** `save` as a transaction: the table with `person` filed under its key. */
  ghost function Inserted(db: Db, person: Person): (r: Db)
    requires DbValid(db)
    ensures DbValid(r) && r.tableExists
    ensures r.table == db.table[UuidToString(person.id) := person]
  {
    var key := UuidToString(person.id);
    Db(true, db.table[key := person], if key in db.table then db.order else InsertKey(db.order, key))
  }

  /**
   * After `save` the record under the person's key is the person, whether or
   * not the key was there before, and every other key is as it was.
   */
  lemma SaveOverwritesOnlyItsKey(db: Db, person: Person)
    requires DbValid(db)
    ensures var r := Inserted(db, person); var key := UuidToString(person.id);
      && key in r.table && r.table[key] == person
      && (forall k :: k != key ==> (k in r.table <==> k in db.table) && (k in db.table ==> r.table[k] == db.table[k]))
      && |r.table| == if key in db.table then |db.table| else |db.table| + 1
  {
  }

  /**
   * `add_embedding` as a transaction: the record under the id's key gains the
   * embedding at the end and keeps its id; a missing key changes no record,
   * though the write transaction still creates the table.
   */
  ghost function Extended(db: Db, id: Uuid, embedding: Embedding): (r: Db)
    requires DbValid(db)
    ensures DbValid(r) && r.tableExists && r.order == db.order
    ensures UuidToString(id) in db.table ==>
      r.table == db.table[UuidToString(id) := Person(id, db.table[UuidToString(id)].embeddings + [embedding])]
    ensures UuidToString(id) !in db.table ==> r.table == db.table
  {
    var key := UuidToString(id);
    if key in db.table then
      var p := db.table[key];
      assert p.id == id by { UuidToStringInjective(p.id, id); }
      Db(true, db.table[key := p.(embeddings := p.embeddings + [embedding])], db.order)
    else
      db.(tableExists := true)
  }

  /** `add_embedding` never adds or removes a key and changes no other record. */
  lemma AddEmbeddingKeepsKeys(db: Db, id: Uuid, embedding: Embedding)
    requires DbValid(db)
    ensures Extended(db, id, embedding).table.Keys == db.table.Keys
    ensures |Extended(db, id, embedding).table| == |db.table|
    ensures forall k :: k in db.table && k != UuidToString(id) ==> Extended(db, id, embedding).table[k] == db.table[k]
  {
    var key := UuidToString(id);
    var t := Extended(db, id, embedding).table;
    if key in db.table {
      assert t == db.table[key := t[key]];
    } else {
      assert t == db.table;
    }
  }

  lemma InsertedKeepsNonEmpty(db: Db, person: Person)
    requires DbValid(db) && AllNonEmpty(db) && person.embeddings != []
    ensures AllNonEmpty(Inserted(db, person))
  {
  }

  lemma ExtendedKeepsNonEmpty(db: Db, id: Uuid, embedding: Embedding)
    requires DbValid(db) && AllNonEmpty(db)
    ensures AllNonEmpty(Extended(db, id, embedding))
  {
  }

  /** The store handle; its one field is the committed contents of the store file. */
  class PersonStore {

    var db: Db

    ghost predicate Valid()
      reads this
    {
      DbValid(db)
    }

    /** Opens the store file, or starts an empty one when there is none. */
    constructor (file: Option<Db>)
      requires file.Some? ==> DbValid(file.value)
      ensures Valid()
      ensures db == if file.Some? then file.value else EmptyDb
    {
      db := if file.Some? then file.value else EmptyDb;
    }

    /** Inserts or overwrites the record under `person`'s key in one transaction. */
    method Save(person: Person)
      requires Valid()
      modifies this
      ensures Valid()
      ensures db == Inserted(old(db), person)
      ensures db.tableExists
      ensures db.table == old(db.table)[UuidToString(person.id) := person]
    {
      var key := UuidToString(person.id);
      var order := if key in db.table then db.order else InsertKey(db.order, key);
      db := Db(true, db.table[key := person], order);
    }

    /** Scans the records in key order and returns the first that qualifies. */
    method FindMatch(query: Embedding, threshold: real, sim: Similarity) returns (found: Option<Person>)
      requires Valid()
      ensures found == FirstMatch(Records(db), query, threshold, sim)
      ensures found.None? <==> forall k :: k in db.table ==> !Qualifies(db.table[k], query, threshold, sim)
      ensures found.Some? ==>
        && UuidToString(found.value.id) in db.table
        && db.table[UuidToString(found.value.id)] == found.value
        && Qualifies(found.value, query, threshold, sim)
        && forall k :: k in db.table && KeyLess(k, UuidToString(found.value.id)) ==> !Qualifies(db.table[k], query, threshold, sim)
    {
      MatchNoneInKeyOrder(db, query, threshold, sim);
      if !db.tableExists {
        FirstMatchNone(Records(db), query, threshold, sim);
        return None;
      }
      var i := 0;
      while i < |db.order|
        invariant 0 <= i <= |db.order|
        invariant forall j :: 0 <= j < i ==> !Qualifies(Records(db)[j], query, threshold, sim)
      {
        var person := db.table[db.order[i]];
        if Qualifies(person, query, threshold, sim) {
          FirstMatchOfFirstQualifying(Records(db), query, threshold, sim, i);
          MatchSomeInKeyOrder(db, query, threshold, sim);
          return Some(person);
        }
        i := i + 1;
      }
      FirstMatchNone(Records(db), query, threshold, sim);
      return None;
    }

    /**
     * Appends `embedding` to the record under `id`'s key in one
     * read-modify-write transaction; a missing key is silently left alone.
     */
    method AddEmbedding(id: Uuid, embedding: Embedding)
      requires Valid()
      modifies this
      ensures Valid()
      ensures db == Extended(old(db), id, embedding)
      ensures db.tableExists && db.order == old(db.order)
      ensures UuidToString(id) in old(db.table) ==>
        db.table == old(db.table)[UuidToString(id) := Person(id, old(db.table)[UuidToString(id)].embeddings + [embedding])]
      ensures UuidToString(id) !in old(db.table) ==> db.table == old(db.table)
    {
      var key := UuidToString(id);
      if key in db.table {
        var person := db.table[key];
        assert person.id == id by { UuidToStringInjective(person.id, id); }
        person := person.(embeddings := person.embeddings + [embedding]);
        db := Db(true, db.table[key := person], db.order);
      } else {
        db := db.(tableExists := true);
      }
    }
  }

  /** Every record in key order; nothing, and no error, before the table exists. */
  method LoadAllPeople(store: PersonStore) returns (people: seq<Person>)
    requires store.Valid()
    ensures people == Records(store.db)
    ensures !store.db.tableExists ==> people == []
    ensures |people| == |store.db.table|
    ensures forall i :: 0 <= i < |people| ==>
      UuidToString(people[i].id) in store.db.table && store.db.table[UuidToString(people[i].id)] == people[i]
    ensures forall k :: k in store.db.table ==> store.db.table[k] in people
    ensures forall i, j :: 0 <= i < j < |people| ==> KeyLess(UuidToString(people[i].id), UuidToString(people[j].id))
  {
    people := [];
    if !store.db.tableExists {
      RecordsInKeyOrder(store.db);
      return;
    }
    var db := store.db;
    var i := 0;
    while i < |db.order|
      invariant 0 <= i <= |db.order|
      invariant people == Records(db)[..i]
    {
      assert Records(db)[..i + 1] == Records(db)[..i] + [db.table[db.order[i]]];
      people := people + [db.table[db.order[i]]];
      i := i + 1;
    }
    assert Records(db)[..i] == Records(db);
    RecordsInKeyOrder(db);
  }
}
