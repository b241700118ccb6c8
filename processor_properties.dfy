/**
 * What a run of the pipeline promises: the effect of each kind of decision on
 * the store and on the report, and what holds of a whole run.
 */
module ProcessorProperties {

  import opened Optional
  import opened Uuids
  import opened Domain
  import opened Similarity
  import opened KeyOrder
  import opened Database
  import opened Processor

  // ---------------------------------------------------------------------
  // One face

  /** A face creates a person exactly when it is at or above the gate and matches nobody. */
  lemma CreateIffConfidentStranger(db: Db, q: Embedding, confidence: real, pl: Pipeline, drawn: nat)
    requires DbValid(db) && drawn < |pl.draws|
    ensures Decide(db, q, confidence, pl, drawn).Create?
        <==> confidence >= HIGH_CONFIDENCE && FirstMatch(Records(db), q, pl.threshold, pl.sim).None?
  {
  }

  /** A confident match gains the query as its last embedding and is the id reported. */
  lemma ConfidentMatchAppends(r: Run, s: Sighting, pl: Pipeline, q: Embedding)
    requires DbValid(r.db) && r.drawn < |pl.draws|
    requires pl.embed(s.face.crop) == Some(q) && s.face.confidence >= HIGH_CONFIDENCE
    requires FirstMatch(Records(r.db), q, pl.threshold, pl.sim).Some?
    ensures var p := FirstMatch(Records(r.db), q, pl.threshold, pl.sim).value;
      var key := UuidToString(p.id);
      var r' := TagFace(r, s, pl);
      && key in r.db.table && r.db.table[key] == p
      && Qualifies(p, q, pl.threshold, pl.sim)
      && (forall k :: k in r.db.table && KeyLess(k, key) ==> !Qualifies(r.db.table[k], q, pl.threshold, pl.sim))
      && r'.db.table == r.db.table[key := Person(p.id, p.embeddings + [q])]
      && r'.results == r.results + [DetectedFace(s.path, key, s.face.confidence, s.face.bbox)]
      && r'.drawn == r.drawn
  {
    MatchSomeInKeyOrder(r.db, q, pl.threshold, pl.sim);
  }

  /** A hesitant match leaves the store as it was, yet the matched id is reported. */
  lemma HesitantMatchReports(r: Run, s: Sighting, pl: Pipeline, q: Embedding)
    requires DbValid(r.db) && r.drawn < |pl.draws|
    requires pl.embed(s.face.crop) == Some(q) && s.face.confidence < HIGH_CONFIDENCE
    requires FirstMatch(Records(r.db), q, pl.threshold, pl.sim).Some?
    ensures var p := FirstMatch(Records(r.db), q, pl.threshold, pl.sim).value;
      var key := UuidToString(p.id);
      var r' := TagFace(r, s, pl);
      && key in r.db.table && r.db.table[key] == p
      && Qualifies(p, q, pl.threshold, pl.sim)
      && r'.db == r.db
      && r'.results == r.results + [DetectedFace(s.path, key, s.face.confidence, s.face.bbox)]
      && r'.drawn == r.drawn
  {
    MatchSomeInKeyOrder(r.db, q, pl.threshold, pl.sim);
  }

  /**
   * A confident face that matches nobody becomes exactly one new key, holding
   * a person whose only embedding is the query, and that new id is reported.
   */
  lemma ConfidentStrangerIsSaved(r: Run, s: Sighting, pl: Pipeline, q: Embedding)
    requires DbValid(r.db) && r.drawn < |pl.draws|
    requires pl.embed(s.face.crop) == Some(q) && s.face.confidence >= HIGH_CONFIDENCE
    requires FirstMatch(Records(r.db), q, pl.threshold, pl.sim).None?
    requires UuidToString(pl.draws[r.drawn]) !in r.db.table
    ensures var id := pl.draws[r.drawn];
      var key := UuidToString(id);
      var r' := TagFace(r, s, pl);
      && (forall k :: k in r.db.table ==> !Qualifies(r.db.table[k], q, pl.threshold, pl.sim))
      && r'.db.table == r.db.table[key := Person(id, [q])]
      && |r'.db.table| == |r.db.table| + 1
      && r'.results == r.results + [DetectedFace(s.path, key, s.face.confidence, s.face.bbox)]
      && r'.drawn == r.drawn + 1
  {
    MatchNoneInKeyOrder(r.db, q, pl.threshold, pl.sim);
  }

  /**
   * A hesitant face that matches nobody leaves the store as it was and is
   * reported under a fresh id that is not a key of the store.
   */
  lemma HesitantStrangerIsNotSaved(r: Run, s: Sighting, pl: Pipeline, q: Embedding)
    requires DbValid(r.db) && r.drawn < |pl.draws|
    requires pl.embed(s.face.crop) == Some(q) && s.face.confidence < HIGH_CONFIDENCE
    requires FirstMatch(Records(r.db), q, pl.threshold, pl.sim).None?
    requires UuidToString(pl.draws[r.drawn]) !in r.db.table
    ensures var key := UuidToString(pl.draws[r.drawn]);
      var r' := TagFace(r, s, pl);
      && (forall k :: k in r.db.table ==> !Qualifies(r.db.table[k], q, pl.threshold, pl.sim))
      && r'.db == r.db
      && key !in r'.db.table
      && r'.results == r.results + [DetectedFace(s.path, key, s.face.confidence, s.face.bbox)]
      && r'.drawn == r.drawn + 1
  {
    MatchNoneInKeyOrder(r.db, q, pl.threshold, pl.sim);
  }

  // ---------------------------------------------------------------------
  // The report

  /** The faces whose embedding succeeds, in order: the ones that are reported. */
  ghost function Embedded(ss: seq<Sighting>, embed: Embedder): seq<Sighting>
  {
    if ss == [] then []
    else
      var s := ss[|ss| - 1];
      Embedded(ss[..|ss| - 1], embed) + (if embed(s.face.crop).Some? then [s] else [])
  }

  /** A result reports the image, rectangle and confidence of its face unchanged. */
  predicate Reports(f: DetectedFace, s: Sighting)
  {
    f.imagePath == s.path && f.confidence == s.face.confidence && f.bbox == s.face.bbox
  }

  /**
   * A run keeps the earlier results and adds one per face whose embedding
   * succeeds, in order, each copying its face's path, confidence and box;
   * a face whose embedding fails adds nothing and the run goes on.
   */
  lemma {:induction false} OneResultPerEmbeddedFace(r: Run, ss: seq<Sighting>, pl: Pipeline)
    requires DbValid(r.db) && r.drawn + |ss| <= |pl.draws|
    ensures var R := RunSightings(r, ss, pl); var e := Embedded(ss, pl.embed);
      && |R.results| == |r.results| + |e|
      && R.results[..|r.results|] == r.results
      && forall k :: 0 <= k < |e| ==> Reports(R.results[|r.results| + k], e[k])
    decreases |ss|
  {
    if ss != [] {
      var front := ss[..|ss| - 1];
      var s := ss[|ss| - 1];
      OneResultPerEmbeddedFace(r, front, pl);
      var M := RunSightings(r, front, pl);
      var R := RunSightings(r, ss, pl);
      var e := Embedded(ss, pl.embed);
      var e0 := Embedded(front, pl.embed);
      TagFaceReports(M, s, pl);
      if pl.embed(s.face.crop).Some? {
        assert e == e0 + [s];
        assert R.results[..|r.results|] == M.results[..|r.results|];
        forall k | 0 <= k < |e| ensures Reports(R.results[|r.results| + k], e[k]) {
          if k < |e0| {
            assert R.results[|r.results| + k] == M.results[|r.results| + k];
          }
        }
      } else {
        assert e == e0;
      }
    }
  }

  /** One face adds one result reporting it when its embedding succeeds, and none otherwise. */
  lemma TagFaceReports(r: Run, s: Sighting, pl: Pipeline)
    requires DbValid(r.db) && r.drawn < |pl.draws|
    ensures var R := TagFace(r, s, pl);
      if pl.embed(s.face.crop).Some?
      then |R.results| == |r.results| + 1 && R.results[..|r.results|] == r.results && Reports(R.results[|r.results|], s)
      else R.results == r.results
  {
    var R := TagFace(r, s, pl);
    if pl.embed(s.face.crop).Some? {
      assert R.results[..|r.results|] == r.results;
    }
  }

  // ---------------------------------------------------------------------
  // The store across a run

  /** How many of the decisions created a person: the confident faces that matched nobody. */
  function Created(ds: seq<Decision>): nat
  {
    if ds == [] then 0 else Created(ds[..|ds| - 1]) + (if ds[|ds| - 1].Create? then 1 else 0)
  }

  /** The ids `new_v4` has yet to hand out are distinct and none is a key yet. */
  ghost predicate FreshDraws(r: Run, draws: seq<Uuid>)
  {
    && (forall i, j :: r.drawn <= i < j < |draws| ==> draws[i] != draws[j])
    && (forall i :: r.drawn <= i < |draws| ==> UuidToString(draws[i]) !in r.db.table)
  }

  /** One decision per result, each result carrying its decision's id. */
  ghost predicate Aligned(r: Run)
  {
    && |r.results| == |r.decisions|
    && (forall i :: 0 <= i < |r.results| ==> r.results[i].personId == UuidToString(r.decisions[i].id))
  }

  /** A decision's id is a key of the store exactly when its face was not a hesitant stranger. */
  ghost predicate Stored(r: Run)
  {
    forall i :: 0 <= i < |r.decisions| ==> (UuidToString(r.decisions[i].id) in r.db.table <==> !r.decisions[i].Ephemeral?)
  }

  /** No hesitant stranger's id will be handed out again. */
  ghost predicate Spent(r: Run, draws: seq<Uuid>)
  {
    forall i, j :: 0 <= i < |r.decisions| && r.drawn <= j < |draws| && r.decisions[i].Ephemeral? ==> r.decisions[i].id != draws[j]
  }

  /** A matched face is decided under a stored id, draws nothing, and keeps the keys. */
  lemma MatchedKeys(r: Run, s: Sighting, pl: Pipeline, q: Embedding)
    requires DbValid(r.db) && r.drawn < |pl.draws|
    requires pl.embed(s.face.crop) == Some(q)
    requires FirstMatch(Records(r.db), q, pl.threshold, pl.sim).Some?
    ensures var d := Decide(r.db, q, s.face.confidence, pl, r.drawn);
      var r' := TagFace(r, s, pl);
      && (d.Append? || d.Report?)
      && UuidToString(d.id) in r.db.table
      && r'.drawn == r.drawn
      && r'.db.table.Keys == r.db.table.Keys
  {
    var p := FirstMatch(Records(r.db), q, pl.threshold, pl.sim).value;
    MatchSomeInKeyOrder(r.db, q, pl.threshold, pl.sim);
    AddEmbeddingKeepsKeys(r.db, p.id, q);
  }

  /** An unmatched face is decided under the next draw, and only a confident one adds its key. */
  lemma UnmatchedKeys(r: Run, s: Sighting, pl: Pipeline, q: Embedding)
    requires DbValid(r.db) && r.drawn < |pl.draws|
    requires pl.embed(s.face.crop) == Some(q)
    requires FirstMatch(Records(r.db), q, pl.threshold, pl.sim).None?
    ensures var d := Decide(r.db, q, s.face.confidence, pl, r.drawn);
      var r' := TagFace(r, s, pl);
      && (d.Create? || d.Ephemeral?)
      && d.id == pl.draws[r.drawn]
      && r'.drawn == r.drawn + 1
      && (d.Create? ==> r'.db.table.Keys == r.db.table.Keys + {UuidToString(d.id)})
      && (d.Ephemeral? ==> r'.db.table.Keys == r.db.table.Keys)
  {
    var d := Decide(r.db, q, s.face.confidence, pl, r.drawn);
    SaveOverwritesOnlyItsKey(r.db, Person(d.id, [q]));
  }

  /** What one face does to the report and to the store's keys, by decision. */
  lemma DecisionKeys(r: Run, s: Sighting, pl: Pipeline, q: Embedding)
    requires DbValid(r.db) && r.drawn < |pl.draws|
    requires pl.embed(s.face.crop) == Some(q)
    ensures var d := Decide(r.db, q, s.face.confidence, pl, r.drawn);
      var key := UuidToString(d.id);
      var r' := TagFace(r, s, pl);
      && r'.decisions == r.decisions + [d]
      && r'.results == r.results + [DetectedFace(s.path, key, s.face.confidence, s.face.bbox)]
      && ((d.Create? || d.Ephemeral?) ==> d.id == pl.draws[r.drawn] && r'.drawn == r.drawn + 1)
      && ((d.Append? || d.Report?) ==> key in r.db.table && r'.drawn == r.drawn)
      && (d.Create? ==> r'.db.table.Keys == r.db.table.Keys + {key})
      && (!d.Create? ==> r'.db.table.Keys == r.db.table.Keys)
  {
    if FirstMatch(Records(r.db), q, pl.threshold, pl.sim).Some? {
      MatchedKeys(r, s, pl, q);
    } else {
      UnmatchedKeys(r, s, pl, q);
    }
  }

  /** One face keeps the ids still to be drawn fresh. */
  lemma TagFaceKeepsFresh(r: Run, s: Sighting, pl: Pipeline)
    requires DbValid(r.db) && r.drawn < |pl.draws| && FreshDraws(r, pl.draws)
    ensures FreshDraws(TagFace(r, s, pl), pl.draws)
  {
    var r' := TagFace(r, s, pl);
    if pl.embed(s.face.crop).Some? {
      var q := pl.embed(s.face.crop).value;
      var d := Decide(r.db, q, s.face.confidence, pl, r.drawn);
      DecisionKeys(r, s, pl, q);
      forall i | r'.drawn <= i < |pl.draws| ensures UuidToString(pl.draws[i]) !in r'.db.table {
        if d.Create? {
          UuidToStringInjective(pl.draws[i], d.id);
        }
      }
    }
  }

  /** One face keeps each result paired with its decision. */
  lemma TagFaceKeepsAligned(r: Run, s: Sighting, pl: Pipeline)
    requires DbValid(r.db) && r.drawn < |pl.draws| && Aligned(r)
    ensures Aligned(TagFace(r, s, pl))
  {
    var r' := TagFace(r, s, pl);
    if pl.embed(s.face.crop).Some? {
      var q := pl.embed(s.face.crop).value;
      var d := Decide(r.db, q, s.face.confidence, pl, r.drawn);
      assert r'.decisions == r.decisions + [d];
      assert r'.results == r.results + [DetectedFace(s.path, UuidToString(d.id), s.face.confidence, s.face.bbox)];
      forall i | 0 <= i < |r'.results| ensures r'.results[i].personId == UuidToString(r'.decisions[i].id) {
        if i < |r.results| {
          assert r'.decisions[i] == r.decisions[i];
          assert r'.results[i] == r.results[i];
        }
      }
    }
  }

  /** One face keeps the store's keys in step with the decisions. */
  lemma TagFaceKeepsStored(r: Run, s: Sighting, pl: Pipeline)
    requires DbValid(r.db) && r.drawn < |pl.draws|
    requires FreshDraws(r, pl.draws) && Stored(r) && Spent(r, pl.draws)
    ensures Stored(TagFace(r, s, pl))
  {
    var r' := TagFace(r, s, pl);
    if pl.embed(s.face.crop).Some? {
      var q := pl.embed(s.face.crop).value;
      var d := Decide(r.db, q, s.face.confidence, pl, r.drawn);
      DecisionKeys(r, s, pl, q);
      assert r'.decisions[|r.decisions|] == d;
      forall i | 0 <= i < |r'.decisions|
        ensures UuidToString(r'.decisions[i].id) in r'.db.table <==> !r'.decisions[i].Ephemeral?
      {
        if i < |r.decisions| {
          assert r'.decisions[i] == r.decisions[i];
          if d.Create? && r.decisions[i].Ephemeral? {
            UuidToStringInjective(r.decisions[i].id, d.id);
          }
        }
      }
    }
  }

  /** One face keeps every hesitant stranger's id out of the draws still to come. */
  lemma TagFaceKeepsSpent(r: Run, s: Sighting, pl: Pipeline)
    requires DbValid(r.db) && r.drawn < |pl.draws|
    requires FreshDraws(r, pl.draws) && Spent(r, pl.draws)
    ensures Spent(TagFace(r, s, pl), pl.draws)
  {
    var r' := TagFace(r, s, pl);
    if pl.embed(s.face.crop).Some? {
      var q := pl.embed(s.face.crop).value;
      var d := Decide(r.db, q, s.face.confidence, pl, r.drawn);
      assert r'.decisions == r.decisions + [d];
      assert d.Ephemeral? ==> d.id == pl.draws[r.drawn] && r'.drawn == r.drawn + 1;
      forall i, j | 0 <= i < |r'.decisions| && r'.drawn <= j < |pl.draws| && r'.decisions[i].Ephemeral?
        ensures r'.decisions[i].id != pl.draws[j]
      {
        if i < |r.decisions| {
          assert r'.decisions[i] == r.decisions[i];
        }
      }
    }
  }

  /** One face only appends to the decisions, and grows the store only when it creates a person. */
  lemma TagFaceCounts(r: Run, s: Sighting, pl: Pipeline)
    requires DbValid(r.db) && r.drawn < |pl.draws| && FreshDraws(r, pl.draws)
    ensures |r.decisions| <= |TagFace(r, s, pl).decisions|
    ensures TagFace(r, s, pl).decisions[..|r.decisions|] == r.decisions
    ensures |TagFace(r, s, pl).db.table| + Created(r.decisions) == |r.db.table| + Created(TagFace(r, s, pl).decisions)
  {
    var r' := TagFace(r, s, pl);
    if pl.embed(s.face.crop).Some? {
      var q := pl.embed(s.face.crop).value;
      var d := Decide(r.db, q, s.face.confidence, pl, r.drawn);
      var key := UuidToString(d.id);
      DecisionKeys(r, s, pl, q);
      assert r'.decisions[..|r'.decisions| - 1] == r.decisions;
      if d.Create? {
        assert key !in r.db.table;
        assert |r'.db.table.Keys| == |r.db.table.Keys| + 1;
      } else {
        assert |r'.db.table.Keys| == |r.db.table.Keys|;
      }
    }
  }

  /**
   * A whole stretch of faces keeps the draws fresh and the books balanced,
   * only appends decisions, and grows the store by one key per person
   * created: each face sees what the faces before it did.
   */
  lemma {:induction false} RunKeepsAccounts(r: Run, ss: seq<Sighting>, pl: Pipeline)
    requires DbValid(r.db) && r.drawn + |ss| <= |pl.draws|
    requires FreshDraws(r, pl.draws) && Aligned(r) && Stored(r) && Spent(r, pl.draws)
    ensures var R := RunSightings(r, ss, pl);
      && FreshDraws(R, pl.draws) && Aligned(R) && Stored(R) && Spent(R, pl.draws)
      && |r.decisions| <= |R.decisions| && R.decisions[..|r.decisions|] == r.decisions
      && |R.db.table| + Created(r.decisions) == |r.db.table| + Created(R.decisions)
    decreases |ss|
  {
    if ss != [] {
      var front := ss[..|ss| - 1];
      RunKeepsAccounts(r, front, pl);
      var M := RunSightings(r, front, pl);
      TagFaceKeepsFresh(M, ss[|ss| - 1], pl);
      TagFaceKeepsAligned(M, ss[|ss| - 1], pl);
      TagFaceKeepsStored(M, ss[|ss| - 1], pl);
      TagFaceKeepsSpent(M, ss[|ss| - 1], pl);
      TagFaceCounts(M, ss[|ss| - 1], pl);
      var R := RunSightings(r, ss, pl);
      assert R.decisions[..|r.decisions|] == R.decisions[..|M.decisions|][..|r.decisions|];
    }
  }

  /**
   * Over a whole run that starts from a valid store and fresh draws: every
   * result but a hesitant stranger's names a person in the final store, a
   * hesitant stranger's id names nobody, and the store grows by exactly the
   * number of confident strangers: `Created` counts the `Create` decisions,
   * which `Decide` makes exactly for a face at or above `HIGH_CONFIDENCE`
   * that matches nobody (`CreateIffConfidentStranger`).
   */
  lemma ProcessAccountsForEveryResult(db: Db, entries: seq<string>, pl: Pipeline)
    requires DbValid(db) && |Sightings(entries, pl.detect)| <= |pl.draws|
    requires FreshDraws(Start(db), pl.draws)
    ensures var R := Process(db, entries, pl);
      && |R.results| == |R.decisions|
      && (forall i :: 0 <= i < |R.results| ==>
            R.results[i].personId == UuidToString(R.decisions[i].id)
            && (R.results[i].personId in R.db.table <==> !R.decisions[i].Ephemeral?))
      && |R.db.table| == |db.table| + Created(R.decisions)
  {
    RunKeepsAccounts(Start(db), Sightings(entries, pl.detect), pl);
  }

  /** Saving only non-empty records and appending keep every record non-empty. */
  lemma {:induction false} RunKeepsNonEmpty(r: Run, ss: seq<Sighting>, pl: Pipeline)
    requires DbValid(r.db) && r.drawn + |ss| <= |pl.draws| && AllNonEmpty(r.db)
    ensures AllNonEmpty(RunSightings(r, ss, pl).db)
    decreases |ss|
  {
    if ss != [] {
      RunKeepsNonEmpty(r, ss[..|ss| - 1], pl);
      TagFaceKeepsNonEmpty(RunSightings(r, ss[..|ss| - 1], pl), ss[|ss| - 1], pl);
    }
  }

  /** One face adds an embedding or a one-embedding person, so no record is left empty. */
  lemma TagFaceKeepsNonEmpty(r: Run, s: Sighting, pl: Pipeline)
    requires DbValid(r.db) && r.drawn < |pl.draws| && AllNonEmpty(r.db)
    ensures AllNonEmpty(TagFace(r, s, pl).db)
  {
    if pl.embed(s.face.crop).Some? {
      var q := pl.embed(s.face.crop).value;
      match Decide(r.db, q, s.face.confidence, pl, r.drawn)
      case Append(id) => ExtendedKeepsNonEmpty(r.db, id, q);
      case Create(id) => InsertedKeepsNonEmpty(r.db, Person(id, [q]));
      case Report(_) =>
      case Ephemeral(_) =>
    }
  }

  /** Faces below the confidence gate never change the store, however many there are. */
  lemma {:induction false} HesitantFacesKeepStore(r: Run, ss: seq<Sighting>, pl: Pipeline)
    requires DbValid(r.db) && r.drawn + |ss| <= |pl.draws|
    requires forall k :: 0 <= k < |ss| ==> ss[k].face.confidence < HIGH_CONFIDENCE
    ensures RunSightings(r, ss, pl).db == r.db
    decreases |ss|
  {
    if ss != [] {
      var front := ss[..|ss| - 1];
      var s := ss[|ss| - 1];
      assert forall k :: 0 <= k < |front| ==> front[k] == ss[k];
      HesitantFacesKeepStore(r, front, pl);
      HesitantFaceKeepsStore(RunSightings(r, front, pl), s, pl);
    }
  }

  /** One face below the confidence gate leaves the store as it was. */
  lemma HesitantFaceKeepsStore(r: Run, s: Sighting, pl: Pipeline)
    requires DbValid(r.db) && r.drawn < |pl.draws| && s.face.confidence < HIGH_CONFIDENCE
    ensures TagFace(r, s, pl).db == r.db
  {
    if pl.embed(s.face.crop).Some? {
      var q := pl.embed(s.face.crop).value;
      var d := Decide(r.db, q, s.face.confidence, pl, r.drawn);
      assert d.Report? || d.Ephemeral?;
    }
  }

  // ---------------------------------------------------------------------
  // Scenarios

  /**
   * Two confident faces, the second's embedding more similar to the first's
   * than the threshold, starting from a store nobody has written: the first
   * creates a person under the first drawn id, the second is matched to it
   * and appended, and both report that id.
   */
  lemma SimilarFacesShareIdentity(pl: Pipeline, s1: Sighting, s2: Sighting, a: Embedding, b: Embedding)
    requires |pl.draws| >= 2
    requires pl.embed(s1.face.crop) == Some(a) && pl.embed(s2.face.crop) == Some(b)
    requires s1.face.confidence >= HIGH_CONFIDENCE && s2.face.confidence >= HIGH_CONFIDENCE
    requires pl.sim(a, b) > pl.threshold
    ensures var R := RunSightings(Start(EmptyDb), [s1, s2], pl);
      var id := pl.draws[0];
      && R.db.table == map[UuidToString(id) := Person(id, [a, b])]
      && |R.results| == 2
      && R.results[0].personId == UuidToString(id)
      && R.results[1].personId == UuidToString(id)
  {
    FirstFaceIsSaved(pl, s1, a);
    RunSingle(Start(EmptyDb), s1, pl);
    var ss := [s1, s2];
    assert ss[..1] == [s1];
    RunSnoc(Start(EmptyDb), ss, pl);
    SecondFaceJoins(TagFace(Start(EmptyDb), s1, pl), s2, pl, a, b);
  }

  /** The first confident face on a store nobody has written creates the only person. */
  lemma FirstFaceIsSaved(pl: Pipeline, s: Sighting, q: Embedding)
    requires |pl.draws| >= 1
    requires pl.embed(s.face.crop) == Some(q) && s.face.confidence >= HIGH_CONFIDENCE
    ensures DbValid(EmptyDb)
    ensures var M := TagFace(Start(EmptyDb), s, pl);
      var id := pl.draws[0];
      && M.db.table == map[UuidToString(id) := Person(id, [q])]
      && M.drawn == 1
      && M.results == [DetectedFace(s.path, UuidToString(id), s.face.confidence, s.face.bbox)]
  {
    assert DbValid(EmptyDb) by {
      assert forall k :: k !in EmptyDb.table;
    }
    assert Records(EmptyDb) == [];
    ConfidentStrangerIsSaved(Start(EmptyDb), s, pl, q);
  }

  /** A confident face like the only stored person's one embedding joins that person. */
  lemma SecondFaceJoins(M: Run, s: Sighting, pl: Pipeline, a: Embedding, b: Embedding)
    requires DbValid(M.db) && M.drawn == 1 && |pl.draws| >= 2
    requires M.db.table == map[UuidToString(pl.draws[0]) := Person(pl.draws[0], [a])] && |M.results| == 1
    requires pl.embed(s.face.crop) == Some(b) && s.face.confidence >= HIGH_CONFIDENCE
    requires pl.sim(a, b) > pl.threshold
    ensures var R := TagFace(M, s, pl);
      var id := pl.draws[0];
      && R.db.table == map[UuidToString(id) := Person(id, [a, b])]
      && |R.results| == 2
      && R.results[1].personId == UuidToString(id)
      && R.results[..1] == M.results
  {
    var id := pl.draws[0];
    var key := UuidToString(id);
    var p := Person(id, [a]);
    OnlyRecord(M.db, key);
    assert Qualifies(p, b, pl.threshold, pl.sim) by {
      assert p.embeddings[0] == a;
    }
    assert FirstMatch(Records(M.db), b, pl.threshold, pl.sim) == Some(p);
    ConfidentMatchAppends(M, s, pl, b);
    assert p.embeddings + [b] == [a, b];
    assert map[key := p][key := Person(id, [a, b])] == map[key := Person(id, [a, b])];
  }

  /** A run of several faces is the run of all but the last, then the last face's step. */
  lemma RunSnoc(r: Run, ss: seq<Sighting>, pl: Pipeline)
    requires DbValid(r.db) && r.drawn + |ss| <= |pl.draws| && ss != []
    ensures RunSightings(r, ss, pl) == TagFace(RunSightings(r, ss[..|ss| - 1], pl), ss[|ss| - 1], pl)
  {
  }

  /** The run over the first `n` faces is the run over the first `n - 1`, then face `n - 1`. */
  lemma RunPrefixSnoc(r: Run, ss: seq<Sighting>, n: nat, pl: Pipeline)
    requires DbValid(r.db) && 0 < n <= |ss| && r.drawn + n <= |pl.draws|
    ensures RunSightings(r, ss[..n], pl) == TagFace(RunSightings(r, ss[..n - 1], pl), ss[n - 1], pl)
  {
    assert ss[..n][..n - 1] == ss[..n - 1];
  }

  /** A run of one face is that face's step. */
  lemma RunSingle(r: Run, s: Sighting, pl: Pipeline)
    requires DbValid(r.db) && r.drawn < |pl.draws|
    ensures RunSightings(r, [s], pl) == TagFace(r, s, pl)
  {
    assert [s][..0] == [];
  }

  /** A store holding one key lists exactly that key's record. */
  lemma OnlyRecord(db: Db, key: string)
    requires DbValid(db) && db.table.Keys == {key}
    ensures Records(db) == [db.table[key]]
  {
    assert |db.order| == 1;
    assert db.order[0] in db.table;
  }

  /** Each stored person is one that one of the first `n` faces created: its draw and its embedding alone. */
  ghost predicate OneEach(table: map<string, Person>, ids: seq<Uuid>, qs: seq<Embedding>, n: nat)
  {
    forall k :: k in table ==> exists i :: 0 <= i < n && i < |ids| && i < |qs| && table[k] == Person(ids[i], [qs[i]])
  }

  /** Nobody stored qualifies for a query unlike every one of the first `n` faces. */
  lemma OneEachNoMatch(table: map<string, Person>, pl: Pipeline, qs: seq<Embedding>, n: nat, q: Embedding)
    requires OneEach(table, pl.draws, qs, n)
    requires forall i :: 0 <= i < n && i < |qs| ==> pl.sim(qs[i], q) <= pl.threshold
    ensures forall k :: k in table ==> !Qualifies(table[k], q, pl.threshold, pl.sim)
  {
    forall k | k in table ensures !Qualifies(table[k], q, pl.threshold, pl.sim) {
      var i :| 0 <= i < n && i < |pl.draws| && i < |qs| && table[k] == Person(pl.draws[i], [qs[i]]);
      assert table[k].embeddings[0] == qs[i];
    }
  }

  /** A draw unlike the first `n` draws is no key. */
  lemma OneEachFresh(table: map<string, Person>, pl: Pipeline, qs: seq<Embedding>, n: nat, id: Uuid)
    requires OneEach(table, pl.draws, qs, n)
    requires forall k :: k in table ==> k == UuidToString(table[k].id)
    requires forall i :: 0 <= i < n && i < |pl.draws| ==> pl.draws[i] != id
    ensures UuidToString(id) !in table
  {
    var key := UuidToString(id);
    if key in table {
      var i :| 0 <= i < n && i < |pl.draws| && i < |qs| && table[key] == Person(pl.draws[i], [qs[i]]);
      UuidToStringInjective(pl.draws[i], id);
    }
  }

  /** Filing the `n`-th face's person keeps every record one that the first `n + 1` faces created. */
  lemma OneEachGrows(table: map<string, Person>, pl: Pipeline, qs: seq<Embedding>, n: nat)
    requires n < |pl.draws| && n < |qs|
    requires OneEach(table, pl.draws, qs, n)
    ensures OneEach(table[UuidToString(pl.draws[n]) := Person(pl.draws[n], [qs[n]])], pl.draws, qs, n + 1)
  {
    var key := UuidToString(pl.draws[n]);
    var t := table[key := Person(pl.draws[n], [qs[n]])];
    forall k | k in t ensures exists i :: 0 <= i < n + 1 && i < |pl.draws| && i < |qs| && t[k] == Person(pl.draws[i], [qs[i]]) {
      if k != key {
        var i :| 0 <= i < n && i < |pl.draws| && i < |qs| && table[k] == Person(pl.draws[i], [qs[i]]);
        assert t[k] == Person(pl.draws[i], [qs[i]]);
      } else {
        assert t[k] == Person(pl.draws[n], [qs[n]]);
      }
    }
  }

  lemma OneEachSingle(table: map<string, Person>, ids: seq<Uuid>, qs: seq<Embedding>, n: nat)
    requires OneEach(table, ids, qs, n)
    ensures forall k :: k in table ==> |table[k].embeddings| == 1
  {
    forall k | k in table ensures |table[k].embeddings| == 1 {
      var i :| 0 <= i < n && i < |ids| && i < |qs| && table[k] == Person(ids[i], [qs[i]]);
    }
  }

  /**
   * The `n`-th face, confident and unlike each of the first `n`, once those
   * are stored one each under distinct draws, is one more person.
   */
  lemma DissimilarStep(r: Run, s: Sighting, pl: Pipeline, qs: seq<Embedding>, n: nat)
    requires DbValid(r.db) && r.drawn == n && n < |pl.draws| && n < |qs|
    requires pl.embed(s.face.crop) == Some(qs[n]) && s.face.confidence >= HIGH_CONFIDENCE
    requires OneEach(r.db.table, pl.draws, qs, n) && |r.db.table| == n
    requires forall i :: 0 <= i < n ==> pl.sim(qs[i], qs[n]) <= pl.threshold && pl.draws[i] != pl.draws[n]
    ensures var r' := TagFace(r, s, pl);
      && r'.drawn == n + 1
      && |r'.db.table| == n + 1
      && OneEach(r'.db.table, pl.draws, qs, n + 1)
  {
    OneEachNoMatch(r.db.table, pl, qs, n, qs[n]);
    MatchNoneInKeyOrder(r.db, qs[n], pl.threshold, pl.sim);
    OneEachFresh(r.db.table, pl, qs, n, pl.draws[n]);
    ConfidentStrangerIsSaved(r, s, pl, qs[n]);
    OneEachGrows(r.db.table, pl, qs, n);
  }

  /**
   * The first `n` of some confident faces with embeddings `qs`, pairwise no
   * more similar than the threshold, starting from a run whose store holds
   * nobody and which has drawn no id yet, with distinct draws: one new
   * person per face, each holding exactly its own face's embedding under
   * its own draw.
   */
  lemma {:induction false} DissimilarFacesStoredOneEach(r0: Run, pl: Pipeline, ss: seq<Sighting>, qs: seq<Embedding>, n: nat)
    requires DbValid(r0.db) && r0.db.table == map[] && r0.drawn == 0
    requires n <= |ss| <= |pl.draws| && |ss| <= |qs|
    requires forall i :: 0 <= i < |ss| ==> pl.embed(ss[i].face.crop) == Some(qs[i]) && ss[i].face.confidence >= HIGH_CONFIDENCE
    requires forall i, j :: 0 <= i < j < |ss| ==> pl.draws[i] != pl.draws[j] && pl.sim(qs[i], qs[j]) <= pl.threshold
    ensures var R := RunSightings(r0, ss[..n], pl);
      && R.drawn == n
      && |R.db.table| == n
      && OneEach(R.db.table, pl.draws, qs, n)
  {
    if n > 0 {
      DissimilarFacesStoredOneEach(r0, pl, ss, qs, n - 1);
      RunPrefixSnoc(r0, ss, n, pl);
      DissimilarStep(RunSightings(r0, ss[..n - 1], pl), ss[n - 1], pl, qs, n - 1);
    }
  }

  /**
   * Confident faces, pairwise no more similar than the threshold, starting
   * from a store holding nobody, with distinct draws: as many people as
   * faces, each holding exactly one embedding.
   */
  lemma DissimilarFacesAreDistinctIdentities(db: Db, pl: Pipeline, ss: seq<Sighting>, qs: seq<Embedding>)
    requires DbValid(db) && db.table == map[]
    requires |ss| <= |pl.draws| && |ss| == |qs|
    requires forall i :: 0 <= i < |ss| ==> pl.embed(ss[i].face.crop) == Some(qs[i]) && ss[i].face.confidence >= HIGH_CONFIDENCE
    requires forall i, j :: 0 <= i < j < |ss| ==> pl.draws[i] != pl.draws[j] && pl.sim(qs[i], qs[j]) <= pl.threshold
    ensures var R := RunSightings(Start(db), ss, pl);
      && |R.db.table| == |ss|
      && (forall k :: k in R.db.table ==> |R.db.table[k].embeddings| == 1)
  {
    assert ss[..|ss|] == ss;
    DissimilarFacesStoredOneEach(Start(db), pl, ss, qs, |ss|);
    var R := RunSightings(Start(db), ss, pl);
    OneEachSingle(R.db.table, pl.draws, qs, |ss|);
  }
}
